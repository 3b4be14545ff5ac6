/** Two places where btree_delete as written leaves the tree invariant, each
    shown on a concrete tree that satisfies it. The rest of the model uses the
    corrected steps of BTrees.MergeDown and BTrees.DeleteFoundStep. */
module Findings {
  import opened Entries
  import opened Nodes
  import opened Restructure
  import opened Zipper
  import opened InsertSteps
  import opened DeleteSteps
  import opened BTrees

  /** An entry whose value is its key. */
  function E(k: int): Entry
  {
    Entry(k, k)
  }

  function Leaf(k: int): Node
  {
    Node(true, [E(k)], [])
  }

  lemma LeafGood(k: int, m: nat)
    requires 3 <= m <= 4
    ensures Good(Leaf(k), 0, m, false) && Inorder(Leaf(k)) == [E(k)]
  {
  }

  /** Keys that increase from each entry to the next are sorted. */
  lemma {:induction false} Increasing(s: seq<Entry>)
    requires forall i :: 0 <= i < |s| - 1 ==> s[i].key < s[i + 1].key
    ensures Sorted(s)
    decreases |s|
  {
    if 1 < |s| {
      Increasing(s[1..]);
      forall i, j | 0 <= i < j < |s|
        ensures s[i].key < s[j].key
      {
        assert s[1..][j - 1] == s[j];
        if 0 < i {
          assert s[1..][i - 1] == s[i];
        } else if 1 < j {
          assert s[1..][0] == s[1];
        }
      }
    }
  }

  // ---------------------------------------------------------------------------
  // The collapse test of src/btree.c:234, 286 and 186

  /** The test btree_delete makes before btree_merge to decide that the node
      is the root and the merged child becomes the new root: the node has one
      entry (btree_merge's own test, no entry left afterwards, is the same). */
  function SourceCollapses(n: Node): bool
  {
    |n.kvs| == 1
  }

  /** The left child of Order3Tree. */
  function Order3Left(): Node
  {
    Node(false, [E(5), E(10)], [Leaf(1), Leaf(7), Leaf(15)])
  }

  /** The right child of Order3Tree: no entry at all, as a split of a node
      with two entries leaves its right half when Ceil(3) == 1. */
  function Order3Right(): Node
  {
    Node(false, [], [Leaf(25)])
  }

  /** A tree of order 3 and height 2. */
  function Order3Tree(): Node
  {
    Node(false, [E(20)], [Order3Left(), Order3Right()])
  }

  /** The entries of Order3Tree in key order. */
  function Order3Entries(): seq<Entry>
  {
    [E(1), E(5), E(7), E(10), E(15), E(20), E(25)]
  }

  lemma Order3LeftFacts()
    ensures Good(Order3Left(), 1, 3, false)
    ensures Inorder(Order3Left()) == [E(1), E(5), E(7), E(10), E(15)]
  {
    LeafGood(1, 3);
    LeafGood(7, 3);
    LeafGood(15, 3);
    var a := Order3Left();
    assert forall j :: 0 <= j < 3 ==> a.children[j] in {Leaf(1), Leaf(7), Leaf(15)};
    assert Parts(a.children) == [[E(1)], [E(7)], [E(15)]];
  }

  lemma Order3RightFacts()
    ensures Good(Order3Right(), 1, 3, false)
    ensures Inorder(Order3Right()) == [E(25)]
  {
    LeafGood(25, 3);
    assert Parts(Order3Right().children) == [[E(25)]];
  }

  lemma Order3IsTree()
    ensures Tree(Order3Tree(), 2, 3) && Inorder(Order3Tree()) == Order3Entries()
  {
    Order3LeftFacts();
    Order3RightFacts();
    var t := Order3Tree();
    assert Parts(t.children) == [Inorder(Order3Left()), Inorder(Order3Right())];
    Increasing(Order3Entries());
  }

  /** The right child of Order3Tree after separator 20 moved into it. */
  function Order3Down(): Node
  {
    Node(false, [E(20)], [Leaf(15), Leaf(25)])
  }

  /** Order3Tree after the right rotation of its separator. */
  function Order3Rotated(): Node
  {
    Node(false, [E(10)], [Node(false, [E(5)], [Leaf(1), Leaf(7)]), Order3Down()])
  }

  lemma Order3Rotation()
    ensures Shaped(Order3Tree()) && Shaped(Order3Left()) && Shaped(Order3Right())
    ensures RotateRight(Order3Tree(), 0) == Order3Rotated()
  {
    var x := Order3Left();
    assert x.kvs[..1] == [E(5)] && x.children[..2] == [Leaf(1), Leaf(7)];
    assert [Order3Tree().kvs[0]] + Order3Right().kvs == [E(20)];
    assert [x.children[2]] + Order3Right().children == [Leaf(15), Leaf(25)];
  }

  /** The state the deletion of 20 reaches after the rotation: a valid
      deletion state at a node that is not the root and has one entry. */
  lemma Order3Descent()
    ensures Tree(Order3Tree(), 2, 3)
    ensures FrameOk(Frame(Order3Rotated(), 1)) && Order3Rotated().children[1] == Order3Down()
    ensures DelState(Order3Entries(), 20, 20, None, [Frame(Order3Rotated(), 1)], Order3Down(), 1, 3)
  {
    var t := Order3Tree();
    Order3IsTree();
    DelStart(t, 20, 2, 3);
    StepRotateRight(Inorder(t), 20, 20, None, [], t, 2, 3, 0, 0);
    Order3Rotation();
    assert [] + [Frame(Order3Rotated(), 1)] == [Frame(Order3Rotated(), 1)];
  }

  /** Deleting 20 from Order3Tree: the key is found in the root and its left
      child is rich, so the right rotation of src/btree.c:201-216 moves it into
      the right child, which then holds one entry and is not the root. There 20
      is found again between two poor leaves; the source's test says the node
      is the root, and btree_merge copies the merged leaf, which lists 15, 20
      and 25 only, over the root: 1, 5, 7 and 10 are lost. The model's own test
      does not collapse there. */
  lemma CollapseOffRoot()
    ensures Tree(Order3Tree(), 2, 3)
    ensures DelState(Order3Entries(), 20, 20, None, [Frame(Order3Rotated(), 1)], Order3Down(), 1, 3)
    ensures SourceCollapses(Order3Down()) && !Collapses([Frame(Order3Rotated(), 1)], Order3Down())
    ensures Merge(Order3Down(), 0).children[0] == Node(true, [E(15), E(20), E(25)], [])
    ensures 1 in ToMap(Order3Entries())
    ensures ToMap([E(15), E(20), E(25)]) == map[15 := 15, 20 := 20, 25 := 25]
  {
    Order3Descent();
    Order3Lost();
    Order3Merged();
  }

  /** Key 1 is in the tree, and not in the leaf the source makes the root. */
  lemma Order3Lost()
    ensures 1 in ToMap(Order3Entries())
    ensures ToMap([E(15), E(20), E(25)]) == map[15 := 15, 20 := 20, 25 := 25]
  {
    Increasing(Order3Entries());
    ToMapAt(Order3Entries(), 0);
    assert ToMap([E(25)]) == map[25 := 25];
    assert [E(15), E(20), E(25)][1..] == [E(20), E(25)];
    assert [E(20), E(25)][1..] == [E(25)];
  }

  lemma Order3Merged()
    ensures SourceCollapses(Order3Down()) && !Collapses([Frame(Order3Rotated(), 1)], Order3Down())
    ensures Merge(Order3Down(), 0).children[0] == Node(true, [E(15), E(20), E(25)], [])
  {
    var b := Order3Down();
    assert b.kvs[..0] + b.kvs[1..] == [];
    assert b.children[..0] == [] && b.children[2..] == [];
  }

  // ---------------------------------------------------------------------------
  // The found-key rotation of src/btree.c:201-216

  /** The test of src/btree.c:201: the key found at slot i moves down into
      child i + 1 by a right rotation whenever child i is rich, whatever child
      i + 1 holds. */
  function SourceRotatesRight(n: Node, i: nat, m: nat): bool
    requires !n.leaf && Shaped(n) && i < |n.kvs|
  {
    Ceil(m) < |n.children[i].kvs|
  }

  function Order4Left(): Node
  {
    Node(false, [E(20), E(30)], [Leaf(10), Leaf(25), Leaf(35)])
  }

  /** A right child holding M entries, as the source's own right rotation
      leaves a child that had M - 1. */
  function Order4Right(): Node
  {
    Node(false, [E(60), E(70), E(80), E(90)], [Leaf(55), Leaf(65), Leaf(75), Leaf(85), Leaf(95)])
  }

  /** A tree of order 4 and height 2. */
  function Order4Tree(): Node
  {
    Node(false, [E(50)], [Order4Left(), Order4Right()])
  }

  /** The entries of Order4Tree in key order. */
  function Order4Entries(): seq<Entry>
  {
    [E(10), E(20), E(25), E(30), E(35), E(50), E(55), E(60),
     E(65), E(70), E(75), E(80), E(85), E(90), E(95)]
  }

  lemma Order4LeftFacts()
    ensures Good(Order4Left(), 1, 4, false)
    ensures Inorder(Order4Left()) == [E(10), E(20), E(25), E(30), E(35)]
  {
    LeafGood(10, 4);
    LeafGood(25, 4);
    LeafGood(35, 4);
    var x := Order4Left();
    assert forall j :: 0 <= j < 3 ==> x.children[j] in {Leaf(10), Leaf(25), Leaf(35)};
    assert Parts(x.children) == [[E(10)], [E(25)], [E(35)]];
  }

  lemma Order4RightFacts()
    ensures Good(Order4Right(), 1, 4, false)
    ensures Inorder(Order4Right()) == [E(55), E(60), E(65), E(70), E(75), E(80), E(85), E(90), E(95)]
  {
    LeafGood(55, 4);
    LeafGood(65, 4);
    LeafGood(75, 4);
    LeafGood(85, 4);
    LeafGood(95, 4);
    var y := Order4Right();
    assert forall j :: 0 <= j < 5 ==> y.children[j] in {Leaf(55), Leaf(65), Leaf(75), Leaf(85), Leaf(95)};
    assert Parts(y.children) == [[E(55)], [E(65)], [E(75)], [E(85)], [E(95)]];
  }

  lemma Order4IsTree()
    ensures Tree(Order4Tree(), 2, 4) && Inorder(Order4Tree()) == Order4Entries()
  {
    Order4Inorder();
    Order4Sorted();
    Order4LeftFacts();
    Order4RightFacts();
  }

  lemma Order4Inorder()
    ensures Inorder(Order4Tree()) == Order4Entries()
  {
    Order4LeftFacts();
    Order4RightFacts();
    var t := Order4Tree();
    assert Parts(t.children) == [Inorder(Order4Left()), Inorder(Order4Right())];
    assert Inorder(t) == Inorder(Order4Left()) + [E(50)] + Inorder(Order4Right());
    Order4Glue();
  }

  lemma Order4Glue()
    ensures [E(10), E(20), E(25), E(30), E(35)] + [E(50)]
            + [E(55), E(60), E(65), E(70), E(75), E(80), E(85), E(90), E(95)] == Order4Entries()
  {
  }

  lemma Order4Sorted()
    ensures Sorted(Order4Entries())
  {
    Increasing(Order4Entries());
  }

  /** Deleting 50 from Order4Tree: the source rotates right, and the right
      child then holds M + 1 entries and M + 2 child links, one more than the
      M + 1 slots of its block. The model rotates left instead, since the
      right child has no room (BTrees.DeleteFoundStep). */
  lemma FoundRotationOverflows()
    ensures Tree(Order4Tree(), 2, 4)
    ensures SourceRotatesRight(Order4Tree(), 0, 4)
    ensures |Order4Tree().children[1].kvs| == 4
    ensures |RotateRight(Order4Tree(), 0).children[1].kvs| == 5
    ensures |RotateRight(Order4Tree(), 0).children[1].children| == 6
    ensures !Good(RotateRight(Order4Tree(), 0), 2, 4, true)
  {
    Order4IsTree();
    var r := RotateRight(Order4Tree(), 0);
    assert !Good(r.children[1], 1, 4, false);
  }
}
