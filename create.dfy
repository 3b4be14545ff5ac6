/** The block-size validation of btree_create and the order M it derives
    from the block size: a block is a node header followed by M + 1 entry
    slots. The sizes of the header and of one entry record are parameters
    (they are the C compiler's sizeof values). */
module Create {

  /** Values of the C type size_t are below this. */
  const SizeLimit: nat := 0x1_0000_0000_0000_0000

  /** The bitwise and of two naturals, taken bit by bit from the lowest. */
  function BitAnd(a: nat, b: nat): nat
    decreases a
  {
    if a == 0 || b == 0 then 0
    else 2 * BitAnd(a / 2, b / 2) + (if a % 2 == 1 && b % 2 == 1 then 1 else 0)
  }

  ghost predicate IsPow2(n: nat)
    decreases n
  {
    n == 1 || (1 < n && n % 2 == 0 && IsPow2(n / 2))
  }

  /** block_size - 1 in size_t arithmetic: 0 - 1 wraps around. */
  function SizeDec(bs: nat): (r: nat)
    requires bs < SizeLimit
    ensures r < SizeLimit && (r + 1) % SizeLimit == bs
  {
    if bs == 0 then SizeLimit - 1 else bs - 1
  }

  /** The first test of btree_create: block_size & (block_size - 1) is zero. */
  function PowerOfTwoTest(bs: nat): bool
    requires bs < SizeLimit
  {
    BitAnd(bs, SizeDec(bs)) == 0
  }

  /** The outcome of the checks: the order M of the tree, or a rejection. */
  datatype Checked = Rejected | Order(m: nat)

  /** The checks of btree_create in their order: a power of two, room for the
      header and one entry, then 2 < M < 2^31 for M = (block_size - header) /
      entry - 1. */
  function CheckBlockSize(bs: nat, nodeSize: nat, entrySize: nat): (r: Checked)
    requires bs < SizeLimit && 0 < entrySize
    ensures r.Order? ==> 2 < r.m < 0x8000_0000
    ensures r.Order? ==> nodeSize + (r.m + 1) * entrySize <= bs < nodeSize + (r.m + 2) * entrySize
  {
    if !PowerOfTwoTest(bs) then Rejected
    else if bs < nodeSize + entrySize then Rejected
    else
      var m := (bs - nodeSize) / entrySize - 1;
      if m <= 2 then Rejected
      else if m >= 0x8000_0000 then Rejected
      else
        assert (bs - nodeSize) / entrySize * entrySize <= bs - nodeSize < ((bs - nodeSize) / entrySize + 1) * entrySize
          by { DivBounds(bs - nodeSize, entrySize); }
        Order(m)
  }

  lemma DivBounds(a: nat, b: nat)
    requires 0 < b
    ensures a / b * b <= a < (a / b + 1) * b
  {
  }

  lemma {:induction false} BitAndSelf(a: nat)
    ensures BitAnd(a, a) == a
    decreases a
  {
    if a != 0 {
      BitAndSelf(a / 2);
    }
  }

  /** n & (n - 1) clears the lowest set bit of n, so it is zero exactly when
      n has a single bit set. */
  lemma {:induction false} BitAndPred(n: nat)
    requires 1 <= n
    ensures BitAnd(n, n - 1) == 0 <==> IsPow2(n)
    decreases n
  {
    if n > 1 {
      if n % 2 == 0 {
        assert (n - 1) / 2 == n / 2 - 1;
        BitAndPred(n / 2);
      } else {
        assert (n - 1) / 2 == n / 2;
        BitAndSelf(n / 2);
      }
    }
  }

  /** The test lets through zero and the powers of two, and nothing else. */
  lemma PowerOfTwoTestMeans(bs: nat)
    requires bs < SizeLimit
    ensures PowerOfTwoTest(bs) <==> (bs == 0 || IsPow2(bs))
  {
    if bs > 0 {
      BitAndPred(bs);
    }
  }

  /** A block size is accepted exactly when it is a power of two holding the
      header and at least one entry, with 2 < M < 2^31; the order is M. */
  lemma CheckBlockSizeMeans(bs: nat, nodeSize: nat, entrySize: nat)
    requires bs < SizeLimit && 0 < entrySize
    ensures CheckBlockSize(bs, nodeSize, entrySize).Order? <==>
              && IsPow2(bs) && nodeSize + entrySize <= bs
              && 2 < (bs - nodeSize) / entrySize - 1 < 0x8000_0000
    ensures CheckBlockSize(bs, nodeSize, entrySize).Order? ==>
              CheckBlockSize(bs, nodeSize, entrySize).m == (bs - nodeSize) / entrySize - 1
  {
    PowerOfTwoTestMeans(bs);
  }
}
