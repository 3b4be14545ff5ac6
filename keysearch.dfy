/** key_binary_search: the slot of a node where a key is or would go. */
module KeySearch {
  import opened Entries

  /** A slot where the keys change from below target to at or above it
      (|kvs| when there is none); in a sorted node, the first slot whose key
      is not below target. The search keeps low below and high at or above
      target, starting from the sentinels -1 and num. */
  method KeyBinarySearch(kvs: seq<Entry>, target: int) returns (i: nat)
    ensures i <= |kvs|
    ensures 0 < i ==> kvs[i - 1].key < target
    ensures i < |kvs| ==> target <= kvs[i].key
    ensures Sorted(kvs) ==> forall k :: 0 <= k < i ==> kvs[k].key < target
    ensures Sorted(kvs) ==> forall k :: i <= k < |kvs| ==> target <= kvs[k].key
  {
    var low, high := -1, |kvs|;
    while low + 1 < high
      invariant -1 <= low < high <= |kvs|
      invariant 0 <= low ==> kvs[low].key < target
      invariant high < |kvs| ==> target <= kvs[high].key
      decreases high - low
    {
      var mid := low + (high - low) / 2;
      if target > kvs[mid].key {
        low := mid;
      } else {
        high := mid;
      }
    }
    i := high;
  }

  /** In a sorted node, the slot the search returns holds target exactly when
      target is one of the node's keys. */
  lemma LowerBoundFinds(kvs: seq<Entry>, target: int, i: nat)
    requires Sorted(kvs) && i <= |kvs|
    requires 0 < i ==> kvs[i - 1].key < target
    requires i < |kvs| ==> target <= kvs[i].key
    ensures (i < |kvs| && kvs[i].key == target) <==> target in KeySet(kvs)
  {
  }
}
