/** A B-tree node as a value: a leaf flag, its entries in key order and, for an
    internal node, one child more than it has entries (src/btree.c:8-18). */
module Nodes {
  import opened Entries

  datatype Node = Node(leaf: bool, kvs: seq<Entry>, children: seq<Node>)

  /** The `ceil(M)` macro of the source: a node with more entries than this is
      "rich" and may give one away; one with at most this many is topped up
      before the deletion descends into it. */
  function Ceil(m: int): int
  {
    (m - 1) / 2
  }

  /** The fewest entries a non-root node holds between operations. A split of a
      full node leaves the new right sibling only this many, one below
      `ceil(M)` when M is odd. */
  function MinOcc(m: int): int
  {
    (m - 2) / 2
  }

  /** Local shape: a leaf has no children, an internal node one per gap. */
  ghost predicate Shaped(n: Node)
  {
    if n.leaf then n.children == [] else |n.children| == |n.kvs| + 1
  }

  /** The structural invariant of a subtree of height h for order m: every
      node shaped, at most m entries (the M+1 slots of a block), non-root
      nodes at least MinOcc(m), an internal root at least one entry, and all
      leaves at depth h. */
  ghost predicate Good(n: Node, h: nat, m: nat, root: bool)
    decreases n
  {
    && Shaped(n)
    && |n.kvs| <= m
    && (if root then !n.leaf ==> 1 <= |n.kvs| else MinOcc(m) <= |n.kvs|)
    && (n.leaf <==> h == 0)
    && (!n.leaf ==> forall j :: 0 <= j < |n.children| ==> Good(n.children[j], h - 1, m, false))
  }

  /** Child parts interleaved with entries: ps[0], ks[0], ps[1], ..., ps[|ks|]. */
  function Weave(ks: seq<Entry>, ps: seq<seq<Entry>>): seq<Entry>
    requires |ps| == |ks| + 1
    decreases |ks|
  {
    if |ks| == 0 then ps[0] else ps[0] + [ks[0]] + Weave(ks[1..], ps[1..])
  }

  /** The entries of a subtree in key order (the in-order traversal). */
  function Inorder(n: Node): seq<Entry>
    decreases n, 1
  {
    if n.leaf || |n.children| != |n.kvs| + 1 then n.kvs
    else Weave(n.kvs, Parts(n.children))
  }

  /** The in-order sequences of a list of children. */
  function Parts(cs: seq<Node>): (r: seq<seq<Entry>>)
    ensures |r| == |cs|
    ensures forall j :: 0 <= j < |cs| ==> r[j] == Inorder(cs[j])
    decreases cs, 0
  {
    if cs == [] then [] else [Inorder(cs[0])] + Parts(cs[1..])
  }

  /** What an internal node lists before its child j. */
  function Left(n: Node, j: nat): seq<Entry>
    requires !n.leaf && Shaped(n) && j <= |n.kvs|
  {
    Weave(n.kvs[..j], Parts(n.children)[..j] + [[]])
  }

  /** What an internal node lists after its child j. */
  function Right(n: Node, j: nat): seq<Entry>
    requires !n.leaf && Shaped(n) && j <= |n.kvs|
  {
    Weave(n.kvs[j..], [[]] + Parts(n.children)[j + 1..])
  }

  // ---------------------------------------------------------------------------
  // Interleaving algebra

  lemma WeaveFirst(a: seq<Entry>, b: seq<Entry>, ks: seq<Entry>, ps: seq<seq<Entry>>)
    requires |ps| == |ks|
    ensures Weave(ks, [a + b] + ps) == a + Weave(ks, [b] + ps)
  {
    if |ks| > 0 {
      assert ([a + b] + ps)[1..] == ps == ([b] + ps)[1..];
    }
  }

  lemma {:induction false} WeaveLast(ks: seq<Entry>, ps: seq<seq<Entry>>, a: seq<Entry>, b: seq<Entry>)
    requires |ps| == |ks|
    ensures Weave(ks, ps + [a + b]) == Weave(ks, ps + [a]) + b
  {
    if |ks| > 0 {
      assert (ps + [a + b])[1..] == ps[1..] + [a + b];
      assert (ps + [a])[1..] == ps[1..] + [a];
      WeaveLast(ks[1..], ps[1..], a, b);
    }
  }

  /** Splitting one part in two splits the interleaving there. */
  lemma {:induction false} WeaveGlue(k1: seq<Entry>, k2: seq<Entry>, p1: seq<seq<Entry>>,
                                     a: seq<Entry>, b: seq<Entry>, p2: seq<seq<Entry>>)
    requires |p1| == |k1| && |p2| == |k2|
    ensures Weave(k1 + k2, p1 + [a + b] + p2) == Weave(k1, p1 + [a]) + Weave(k2, [b] + p2)
  {
    if |k1| == 0 {
      assert k1 + k2 == k2 && p1 + [a + b] + p2 == [a + b] + p2;
      WeaveFirst(a, b, k2, p2);
    } else {
      assert (k1 + k2)[1..] == k1[1..] + k2;
      assert (p1 + [a + b] + p2)[1..] == p1[1..] + [a + b] + p2;
      assert (p1 + [a])[1..] == p1[1..] + [a];
      WeaveGlue(k1[1..], k2, p1[1..], a, b, p2);
    }
  }

  /** An entry between two groups of parts separates their interleavings. */
  lemma {:induction false} WeaveConcat(k1: seq<Entry>, e: Entry, k2: seq<Entry>,
                                       p1: seq<seq<Entry>>, p2: seq<seq<Entry>>)
    requires |p1| == |k1| + 1 && |p2| == |k2| + 1
    ensures Weave(k1 + [e] + k2, p1 + p2) == Weave(k1, p1) + [e] + Weave(k2, p2)
  {
    if |k1| == 0 {
      assert k1 + [e] + k2 == [e] + k2;
      assert ([e] + k2)[1..] == k2;
      assert (p1 + p2)[1..] == p2;
    } else {
      assert (k1 + [e] + k2)[1..] == k1[1..] + [e] + k2;
      assert (p1 + p2)[1..] == p1[1..] + p2;
      WeaveConcat(k1[1..], e, k2, p1[1..], p2);
    }
  }

  /** The interleaving around part j. */
  lemma WeaveOne(ks: seq<Entry>, ps: seq<seq<Entry>>, j: nat)
    requires |ps| == |ks| + 1 && j < |ps|
    ensures Weave(ks, ps) == Weave(ks[..j], ps[..j] + [[]]) + ps[j] + Weave(ks[j..], [[]] + ps[j + 1..])
  {
    var k1, k2, p1, a, p2 := ks[..j], ks[j..], ps[..j], ps[j], ps[j + 1..];
    var e: seq<Entry> := [];
    assert ks == k1 + k2;
    assert a + e == a && e + a == a;
    assert ps == p1 + [a] + p2;
    WeaveGlue(k1, k2, p1, a, e, p2);
    assert Weave(ks, ps) == Weave(k1, p1 + [a]) + Weave(k2, [e] + p2);
    WeaveLast(k1, p1, e, a);
  }

  lemma WeaveRightStep(ks: seq<Entry>, ps: seq<seq<Entry>>, j: nat)
    requires |ps| == |ks| + 1 && j < |ks|
    ensures Weave(ks[j..], [[]] + ps[j + 1..]) == [ks[j]] + ps[j + 1] + Weave(ks[j + 1..], [[]] + ps[j + 2..])
  {
    var e: seq<Entry> := [];
    var q := [e] + ps[j + 1..];
    var k2 := ks[j..];
    assert k2[0] == ks[j] && k2[1..] == ks[j + 1..];
    assert q[0] == e && q[1..] == ps[j + 1..];
    assert Weave(k2, q) == q[0] + [k2[0]] + Weave(k2[1..], q[1..]);
    assert ps[j + 1] + e == ps[j + 1];
    assert ps[j + 1..] == [ps[j + 1]] + ps[j + 2..];
    WeaveFirst(ps[j + 1], e, ks[j + 1..], ps[j + 2..]);
  }

  /** The interleaving around parts j and j + 1 and the entry between them. */
  lemma WeaveTwo(ks: seq<Entry>, ps: seq<seq<Entry>>, j: nat)
    requires |ps| == |ks| + 1 && j < |ks|
    ensures Weave(ks, ps) == Weave(ks[..j], ps[..j] + [[]]) + (ps[j] + [ks[j]] + ps[j + 1])
                             + Weave(ks[j + 1..], [[]] + ps[j + 2..])
  {
    WeaveOne(ks, ps, j);
    WeaveRightStep(ks, ps, j);
  }

  lemma {:induction false} WeaveHasKeys(ks: seq<Entry>, ps: seq<seq<Entry>>, i: nat)
    requires |ps| == |ks| + 1 && i < |ks|
    ensures ks[i] in Weave(ks, ps)
  {
    if i > 0 {
      WeaveHasKeys(ks[1..], ps[1..], i - 1);
    }
  }

  /** A sorted interleaving has sorted separators. */
  lemma {:induction false} WeaveKeysSorted(ks: seq<Entry>, ps: seq<seq<Entry>>)
    requires |ps| == |ks| + 1 && Sorted(Weave(ks, ps))
    ensures Sorted(ks)
  {
    if |ks| > 0 {
      var rest := Weave(ks[1..], ps[1..]);
      SortedParts(ps[0] + [ks[0]], rest, []);
      assert ps[0] + [ks[0]] + rest + [] == Weave(ks, ps);
      WeaveKeysSorted(ks[1..], ps[1..]);
      forall j | 1 <= j < |ks| ensures ks[0].key < ks[j].key {
        WeaveHasKeys(ks[1..], ps[1..], j - 1);
        var p :| 0 <= p < |rest| && rest[p] == ks[j];
        assert Weave(ks, ps)[|ps[0]|] == ks[0];
        assert Weave(ks, ps)[|ps[0]| + 1 + p] == ks[j];
      }
    }
  }

  // ---------------------------------------------------------------------------
  // A node's in-order sequence around one child

  lemma InorderAt(n: Node, j: nat)
    requires !n.leaf && Shaped(n) && j < |n.children|
    ensures Inorder(n) == Left(n, j) + Inorder(n.children[j]) + Right(n, j)
  {
    WeaveOne(n.kvs, Parts(n.children), j);
  }

  lemma InorderAtPair(n: Node, j: nat)
    requires !n.leaf && Shaped(n) && j < |n.kvs|
    ensures Inorder(n) == Left(n, j) + (Inorder(n.children[j]) + [n.kvs[j]] + Inorder(n.children[j + 1]))
                          + Right(n, j + 1)
  {
    WeaveTwo(n.kvs, Parts(n.children), j);
    assert Parts(n.children)[j + 2..] == Parts(n.children)[j + 1..][1..];
  }

  /** Left(n, j) ends with the separator before child j. */
  lemma LeftEnd(n: Node, j: nat)
    requires !n.leaf && Shaped(n) && 0 < j <= |n.kvs|
    ensures |Left(n, j)| > 0 && Left(n, j)[|Left(n, j)| - 1] == n.kvs[j - 1]
  {
    var ks := n.kvs[..j];
    var ps := Parts(n.children)[..j];
    assert ks == ks[..j - 1] + [ks[j - 1]] + [];
    WeaveConcat(ks[..j - 1], ks[j - 1], [], ps, [[]]);
  }

  /** Right(n, j) starts with the separator after child j. */
  lemma RightStart(n: Node, j: nat)
    requires !n.leaf && Shaped(n) && j < |n.kvs|
    ensures |Right(n, j)| > 0 && Right(n, j)[0] == n.kvs[j]
  {
    var q := [[]] + Parts(n.children)[j + 1..];
    assert n.kvs[j..][0] == n.kvs[j];
    assert q[0] == [];
  }

  lemma LeftSame(n: Node, n': Node, j: nat)
    requires !n.leaf && Shaped(n) && j <= |n.kvs|
    requires !n'.leaf && Shaped(n') && j <= |n'.kvs|
    requires n'.kvs[..j] == n.kvs[..j] && n'.children[..j] == n.children[..j]
    ensures Left(n', j) == Left(n, j)
  {
    assert Parts(n'.children)[..j] == Parts(n.children)[..j] by {
      forall k | 0 <= k < j ensures Parts(n'.children)[k] == Parts(n.children)[k] {
        assert n'.children[k] == n'.children[..j][k];
      }
    }
  }

  lemma RightSame(n: Node, j: nat, n': Node, j': nat)
    requires !n.leaf && Shaped(n) && j <= |n.kvs|
    requires !n'.leaf && Shaped(n') && j' <= |n'.kvs|
    requires n'.kvs[j'..] == n.kvs[j..] && n'.children[j' + 1..] == n.children[j + 1..]
    ensures Right(n', j') == Right(n, j)
  {
    var a, b := Parts(n'.children)[j' + 1..], Parts(n.children)[j + 1..];
    assert a == b by {
      assert |a| == |b|;
      forall k | 0 <= k < |a| ensures a[k] == b[k] {
        assert n'.children[j' + 1 + k] == n'.children[j' + 1..][k];
      }
    }
  }

  /** The entries of a node with a sorted in-order sequence are sorted. */
  lemma KeysSorted(n: Node)
    requires Shaped(n) && Sorted(Inorder(n))
    ensures Sorted(n.kvs)
  {
    if !n.leaf {
      WeaveKeysSorted(n.kvs, Parts(n.children));
    }
  }

  lemma KeysInInorder(n: Node, i: nat)
    requires Shaped(n) && i < |n.kvs|
    ensures n.kvs[i] in Inorder(n)
  {
    if !n.leaf {
      WeaveHasKeys(n.kvs, Parts(n.children), i);
    }
  }

  /** Routing: a key strictly between the separators around child j can only
      be in child j. */
  lemma Route(n: Node, j: nat, t: int)
    requires !n.leaf && Shaped(n) && j < |n.children| && Sorted(Inorder(n))
    requires 0 < j ==> n.kvs[j - 1].key < t
    requires j < |n.kvs| ==> t < n.kvs[j].key
    ensures AllBelow(Left(n, j), t) && AllAbove(Right(n, j), t)
    ensures t !in KeySet(Left(n, j)) && t !in KeySet(Right(n, j))
    ensures Sorted(Inorder(n.children[j]))
  {
    InorderAt(n, j);
    if 0 < j { LeftEnd(n, j); }
    if j < |n.kvs| { RightStart(n, j); }
    SortedOutside(Left(n, j), Inorder(n.children[j]), Right(n, j), t);
    SortedParts(Left(n, j), Inorder(n.children[j]), Right(n, j));
  }

  /** Right(n, j) is the separator j, child j + 1, then Right(n, j + 1). */
  lemma RightStep(n: Node, j: nat)
    requires !n.leaf && Shaped(n) && j < |n.kvs|
    ensures Right(n, j) == [n.kvs[j]] + Inorder(n.children[j + 1]) + Right(n, j + 1)
  {
    WeaveRightStep(n.kvs, Parts(n.children), j);
  }

  /** An internal node without entries lists what its only child lists. */
  lemma InorderSingle(n: Node)
    requires !n.leaf && Shaped(n) && |n.kvs| == 0
    ensures Inorder(n) == Inorder(n.children[0])
  {
  }

  /** A separator is above everything in the child on its left and below
      everything in the child on its right. */
  lemma Separates(n: Node, j: nat)
    requires !n.leaf && Shaped(n) && j < |n.kvs| && Sorted(Inorder(n))
    ensures AllBelow(Inorder(n.children[j]), n.kvs[j].key)
    ensures AllAbove(Inorder(n.children[j + 1]), n.kvs[j].key)
    ensures Sorted(Inorder(n.children[j])) && Sorted(Inorder(n.children[j + 1]))
  {
    var x, y := Inorder(n.children[j]), Inorder(n.children[j + 1]);
    InorderAtPair(n, j);
    SortedParts(Left(n, j), x + [n.kvs[j]] + y, Right(n, j + 1));
    SortedAround(x, n.kvs[j], y);
    SortedParts(x, [n.kvs[j]], y);
  }
}
