/** Key/value entries of the tree, sequences of entries in key order, and the
    abstract map such a sequence stands for. */
module Entries {

  /** One (key, value) pair of a node; the child link of the C record lives in
      the node's children sequence instead. */
  datatype Entry = Entry(key: int, value: int)

  datatype Option<T> = None | Some(value: T)

  /** Keys strictly increase along the sequence (so no key occurs twice). */
  ghost predicate Sorted(s: seq<Entry>)
  {
    forall i, j :: 0 <= i < j < |s| ==> s[i].key < s[j].key
  }

  ghost function KeySet(s: seq<Entry>): set<int>
  {
    set i | 0 <= i < |s| :: s[i].key
  }

  /** Every key of s is below t. */
  ghost predicate AllBelow(s: seq<Entry>, t: int)
  {
    forall i :: 0 <= i < |s| ==> s[i].key < t
  }

  /** Every key of s is above t. */
  ghost predicate AllAbove(s: seq<Entry>, t: int)
  {
    forall i :: 0 <= i < |s| ==> t < s[i].key
  }

  /** The map a sequence of entries stands for; an earlier entry wins over a
      later one with the same key (in a sorted sequence there is none). */
  ghost function ToMap(s: seq<Entry>): map<int, int>
  {
    if |s| == 0 then map[] else ToMap(s[1..])[s[0].key := s[0].value]
  }

  /** The sequence with every entry whose key is t taken out. */
  ghost function RemoveKey(s: seq<Entry>, t: int): seq<Entry>
  {
    if |s| == 0 then []
    else (if s[0].key == t then [] else [s[0]]) + RemoveKey(s[1..], t)
  }

  lemma {:induction false} ToMapKeys(s: seq<Entry>)
    ensures ToMap(s).Keys == KeySet(s)
  {
    if |s| > 0 {
      ToMapKeys(s[1..]);
      assert KeySet(s) == KeySet(s[1..]) + {s[0].key} by {
        forall k | k in KeySet(s) ensures k in KeySet(s[1..]) + {s[0].key} {
          var i :| 0 <= i < |s| && s[i].key == k;
          if i > 0 { assert s[1..][i - 1].key == k; }
        }
        forall k | k in KeySet(s[1..]) ensures k in KeySet(s) {
          var i :| 0 <= i < |s[1..]| && s[1..][i].key == k;
          assert s[i + 1].key == k;
        }
      }
    }
  }

  lemma {:induction false} ToMapConcat(a: seq<Entry>, b: seq<Entry>)
    ensures ToMap(a + b) == ToMap(b) + ToMap(a)
  {
    if |a| > 0 {
      assert (a + b)[1..] == a[1..] + b;
      ToMapConcat(a[1..], b);
    } else {
      assert a + b == b;
    }
  }

  lemma KeySetConcat(a: seq<Entry>, b: seq<Entry>)
    ensures KeySet(a + b) == KeySet(a) + KeySet(b)
  {
    forall k | k in KeySet(a + b) ensures k in KeySet(a) + KeySet(b) {
      var i :| 0 <= i < |a + b| && (a + b)[i].key == k;
      if i < |a| { assert a[i].key == k; } else { assert b[i - |a|].key == k; }
    }
    forall k | k in KeySet(a) + KeySet(b) ensures k in KeySet(a + b) {
      if k in KeySet(a) {
        var i :| 0 <= i < |a| && a[i].key == k;
        assert (a + b)[i].key == k;
      } else {
        var i :| 0 <= i < |b| && b[i].key == k;
        assert (a + b)[|a| + i].key == k;
      }
    }
  }

  /** In a sorted sequence the map holds, for each entry, exactly its value. */
  lemma {:induction false} ToMapAt(s: seq<Entry>, i: nat)
    requires Sorted(s) && i < |s|
    ensures s[i].key in ToMap(s) && ToMap(s)[s[i].key] == s[i].value
  {
    if i > 0 {
      assert s[1..][i - 1] == s[i];
      ToMapAt(s[1..], i - 1);
    }
  }

  /** A sorted sequence has as many map keys as entries. */
  lemma {:induction false} ToMapSize(s: seq<Entry>)
    requires Sorted(s)
    ensures |ToMap(s)| == |s|
  {
    if |s| > 0 {
      ToMapSize(s[1..]);
      ToMapKeys(s[1..]);
      assert s[0].key !in KeySet(s[1..]);
    }
  }

  /** Inserting an entry whose key is new adds exactly that key to the map. */
  lemma ToMapInsert(a: seq<Entry>, e: Entry, b: seq<Entry>)
    requires e.key !in KeySet(a) && e.key !in KeySet(b)
    ensures ToMap(a + [e] + b) == ToMap(a + b)[e.key := e.value]
  {
    ToMapConcat(a + [e], b);
    ToMapConcat(a, [e]);
    ToMapConcat(a, b);
    ToMapKeys(a);
    ToMapKeys(b);
    assert ToMap([e]) == map[e.key := e.value] by {
      assert [e][1..] == [];
    }
  }

  /** Replacing the entry for a key changes only that key's value in the map. */
  lemma {:induction false} ToMapReplace(a: seq<Entry>, e: Entry, v: int, b: seq<Entry>)
    requires e.key !in KeySet(a)
    ensures ToMap(a + [Entry(e.key, v)] + b) == ToMap(a + [e] + b)[e.key := v]
    decreases |a|
  {
    var e' := Entry(e.key, v);
    if |a| == 0 {
      assert a + [e'] + b == [e'] + b && a + [e] + b == [e] + b;
      assert ([e'] + b)[1..] == b && ([e] + b)[1..] == b;
    } else {
      assert e.key !in KeySet(a[1..]) && a[0].key != e.key by {
        assert a[0].key in KeySet(a);
        forall k | 0 <= k < |a[1..]| ensures a[1..][k].key != e.key {
          assert a[1..][k] == a[k + 1];
        }
      }
      ToMapReplace(a[1..], e, v, b);
      assert (a + [e'] + b)[1..] == a[1..] + [e'] + b;
      assert (a + [e] + b)[1..] == a[1..] + [e] + b;
    }
  }

  lemma WithoutAbsent(m: map<int, int>, k: int)
    requires k !in m
    ensures m - {k} == m
  {
  }

  lemma {:induction false} ToMapRemoveKey(s: seq<Entry>, t: int)
    ensures ToMap(RemoveKey(s, t)) == ToMap(s) - {t}
  {
    if |s| > 0 {
      ToMapRemoveKey(s[1..], t);
      var rest := RemoveKey(s[1..], t);
      if s[0].key == t {
        assert RemoveKey(s, t) == rest;
      } else {
        assert RemoveKey(s, t) == [s[0]] + rest;
        assert ([s[0]] + rest)[1..] == rest;
      }
    }
  }

  lemma {:induction false} RemoveKeyConcat(a: seq<Entry>, b: seq<Entry>, t: int)
    ensures RemoveKey(a + b, t) == RemoveKey(a, t) + RemoveKey(b, t)
  {
    if |a| == 0 {
      assert a + b == b;
    } else {
      assert (a + b)[1..] == a[1..] + b;
      RemoveKeyConcat(a[1..], b, t);
    }
  }

  lemma {:induction false} RemoveKeyAbsent(s: seq<Entry>, t: int)
    requires t !in KeySet(s)
    ensures RemoveKey(s, t) == s
  {
    if |s| > 0 {
      assert KeySet(s[1..]) <= KeySet(s) by {
        forall k | k in KeySet(s[1..]) ensures k in KeySet(s) {
          var i :| 0 <= i < |s[1..]| && s[1..][i].key == k;
          assert s[i + 1].key == k;
        }
      }
      RemoveKeyAbsent(s[1..], t);
      assert [s[0]] + s[1..] == s;
    }
  }

  /** What remains after removing t consists of entries of s (in order) whose
      key is not t. */
  lemma {:induction false} RemoveKeyPart(s: seq<Entry>, t: int)
    ensures |RemoveKey(s, t)| <= |s|
    ensures forall i :: 0 <= i < |RemoveKey(s, t)| ==>
              RemoveKey(s, t)[i].key != t && RemoveKey(s, t)[i] in s
  {
    if |s| > 0 {
      RemoveKeyPart(s[1..], t);
    }
  }

  lemma {:induction false} RemoveKeySorted(s: seq<Entry>, t: int)
    requires Sorted(s)
    ensures Sorted(RemoveKey(s, t))
  {
    if |s| > 0 {
      RemoveKeySorted(s[1..], t);
      RemoveKeyPart(s[1..], t);
      var r := RemoveKey(s[1..], t);
      forall i | 0 <= i < |r| ensures s[0].key < r[i].key {
        var j :| 0 <= j < |s[1..]| && s[1..][j] == r[i];
        assert s[j + 1] == r[i];
      }
    }
  }

  /** Removing a key that occurs once (sorted) shortens by one; removing an
      absent key changes nothing. */
  lemma {:induction false} RemoveKeySize(s: seq<Entry>, t: int)
    requires Sorted(s)
    ensures |RemoveKey(s, t)| == if t in KeySet(s) then |s| - 1 else |s|
  {
    if |s| > 0 {
      RemoveKeySize(s[1..], t);
      KeySetConcat([s[0]], s[1..]);
      assert [s[0]] + s[1..] == s;
      assert KeySet([s[0]]) == {s[0].key};
      if s[0].key == t {
        assert t !in KeySet(s[1..]);
      }
    }
  }

  /** The entry at index i of a sorted sequence is the only one with its key. */
  lemma {:induction false} RemoveKeyAt(s: seq<Entry>, i: nat)
    requires Sorted(s) && i < |s|
    ensures RemoveKey(s, s[i].key) == s[..i] + s[i + 1..]
  {
    var t := s[i].key;
    if i == 0 {
      assert t !in KeySet(s[1..]) by {
        forall k | 0 <= k < |s[1..]| ensures s[1..][k].key != t {
          assert s[1..][k] == s[k + 1];
        }
      }
      RemoveKeyAbsent(s[1..], t);
    } else {
      assert s[1..][i - 1] == s[i];
      RemoveKeyAt(s[1..], i - 1);
      assert s[..i] == [s[0]] + s[1..][..i - 1];
      assert s[i + 1..] == s[1..][i..];
    }
  }

  lemma SortedParts(a: seq<Entry>, b: seq<Entry>, c: seq<Entry>)
    requires Sorted(a + b + c)
    ensures Sorted(a) && Sorted(b) && Sorted(c)
  {
    forall i, j | 0 <= i < j < |b| ensures b[i].key < b[j].key {
      assert b[i] == (a + b + c)[|a| + i] && b[j] == (a + b + c)[|a| + j];
    }
    forall i, j | 0 <= i < j < |c| ensures c[i].key < c[j].key {
      assert c[i] == (a + b + c)[|a| + |b| + i] && c[j] == (a + b + c)[|a| + |b| + j];
    }
    forall i, j | 0 <= i < j < |a| ensures a[i].key < a[j].key {
      assert a[i] == (a + b + c)[i] && a[j] == (a + b + c)[j];
    }
  }

  /** In a sorted a + x + b, a key strictly between the last key of a and the
      first key of b occurs in neither a nor b. */
  lemma SortedOutside(a: seq<Entry>, x: seq<Entry>, b: seq<Entry>, t: int)
    requires Sorted(a + x + b)
    requires |a| > 0 ==> a[|a| - 1].key < t
    requires |b| > 0 ==> t < b[0].key
    ensures AllBelow(a, t) && AllAbove(b, t)
    ensures t !in KeySet(a) && t !in KeySet(b)
  {
    var s := a + x + b;
    forall i | 0 <= i < |a| ensures a[i].key < t {
      assert a[i] == s[i] && a[|a| - 1] == s[|a| - 1];
    }
    forall i | 0 <= i < |b| ensures t < b[i].key {
      assert b[i] == s[|a| + |x| + i] && b[0] == s[|a| + |x|];
    }
  }

  /** A new key strictly between the two halves keeps the sequence sorted. */
  lemma SortedInsert(a: seq<Entry>, e: Entry, b: seq<Entry>)
    requires Sorted(a + b) && AllBelow(a, e.key) && AllAbove(b, e.key)
    ensures Sorted(a + [e] + b)
  {
    var s := a + [e] + b;
    forall i, j | 0 <= i < j < |s| ensures s[i].key < s[j].key {
      if i < |a| && j > |a| {
        assert s[i] == (a + b)[i] && s[j] == (a + b)[j - 1];
      } else if j < |a| {
        assert s[i] == (a + b)[i] && s[j] == (a + b)[j];
      } else if i > |a| {
        assert s[i] == (a + b)[i - 1] && s[j] == (a + b)[j - 1];
      }
    }
  }

  /** Changing the value of one entry keeps the sequence sorted. */
  lemma SortedReplace(a: seq<Entry>, e: Entry, v: int, b: seq<Entry>)
    requires Sorted(a + [e] + b)
    ensures Sorted(a + [Entry(e.key, v)] + b)
  {
    var s := a + [e] + b;
    var s' := a + [Entry(e.key, v)] + b;
    assert forall i :: 0 <= i < |s| ==> s'[i].key == s[i].key;
  }

  lemma KeyInSorted(a: seq<Entry>, e: Entry, b: seq<Entry>)
    requires Sorted(a + [e] + b)
    ensures e.key !in KeySet(a) && e.key !in KeySet(b) && e.key in KeySet(a + [e] + b)
  {
    var s := a + [e] + b;
    assert s[|a|] == e;
    forall i | 0 <= i < |a| ensures a[i].key != e.key { assert a[i] == s[i]; }
    forall i | 0 <= i < |b| ensures b[i].key != e.key { assert b[i] == s[|a| + 1 + i]; }
  }

  /** In a sorted sequence, everything before an entry has a smaller key and
      everything after it a larger one. */
  lemma SortedAround(a: seq<Entry>, e: Entry, b: seq<Entry>)
    requires Sorted(a + [e] + b)
    ensures AllBelow(a, e.key) && AllAbove(b, e.key)
  {
    var s := a + [e] + b;
    assert s[|a|] == e;
    forall i | 0 <= i < |a| ensures a[i].key < e.key { assert a[i] == s[i]; }
    forall i | 0 <= i < |b| ensures e.key < b[i].key { assert b[i] == s[|a| + 1 + i]; }
  }

  lemma AllBelowConcat(a: seq<Entry>, b: seq<Entry>, t: int)
    requires AllBelow(a, t) && AllBelow(b, t)
    ensures AllBelow(a + b, t)
  {
    assert forall i :: 0 <= i < |a + b| ==> (a + b)[i] == if i < |a| then a[i] else b[i - |a|];
  }

  lemma AllAboveConcat(a: seq<Entry>, b: seq<Entry>, t: int)
    requires AllAbove(a, t) && AllAbove(b, t)
    ensures AllAbove(a + b, t)
  {
    assert forall i :: 0 <= i < |a + b| ==> (a + b)[i] == if i < |a| then a[i] else b[i - |a|];
  }

  lemma BoundNotIn(s: seq<Entry>, t: int)
    requires AllBelow(s, t) || AllAbove(s, t)
    ensures t !in KeySet(s)
  {
  }

  lemma Reassociate(a: seq<Entry>, b: seq<Entry>, c: seq<Entry>, d: seq<Entry>, e: seq<Entry>)
    ensures (a + b) + c + (d + e) == a + (b + c + d) + e
  {
  }

  /** Changing the value of one entry inside a sorted sequence: still sorted,
      the same length, and the map changes at that key only. */
  lemma ReplaceInContext(l: seq<Entry>, x: seq<Entry>, e: Entry, y: seq<Entry>, r: seq<Entry>, v: int)
    requires Sorted(l + (x + [e] + y) + r)
    ensures Sorted(l + (x + [Entry(e.key, v)] + y) + r)
    ensures ToMap(l + (x + [Entry(e.key, v)] + y) + r) == ToMap(l + (x + [e] + y) + r)[e.key := v]
    ensures |l + (x + [Entry(e.key, v)] + y) + r| == |l + (x + [e] + y) + r|
    ensures e.key in ToMap(l + (x + [e] + y) + r)
  {
    var a, b := l + x, y + r;
    Reassociate(l, x, [e], y, r);
    Reassociate(l, x, [Entry(e.key, v)], y, r);
    SortedReplace(a, e, v, b);
    KeyInSorted(a, e, b);
    ToMapReplace(a, e, v, b);
    ToMapKeys(a + [e] + b);
  }

  /** Putting a new entry between lo and hi inside a sorted sequence, where
      everything before is below its key and everything after above: still
      sorted, one longer, and the map gains that key. */
  lemma InsertInContext(l: seq<Entry>, lo: seq<Entry>, e: Entry, hi: seq<Entry>, r: seq<Entry>)
    requires Sorted(l + (lo + hi) + r)
    requires AllBelow(l, e.key) && AllBelow(lo, e.key) && AllAbove(hi, e.key) && AllAbove(r, e.key)
    ensures Sorted(l + (lo + [e] + hi) + r)
    ensures ToMap(l + (lo + [e] + hi) + r) == ToMap(l + (lo + hi) + r)[e.key := e.value]
    ensures |l + (lo + [e] + hi) + r| == |l + (lo + hi) + r| + 1
    ensures e.key !in ToMap(l + (lo + hi) + r)
  {
    var a, b := l + lo, hi + r;
    assert l + (lo + hi) + r == a + b;
    Reassociate(l, lo, [e], hi, r);
    AllBelowConcat(l, lo, e.key);
    AllAboveConcat(hi, r, e.key);
    SortedInsert(a, e, b);
    BoundNotIn(a, e.key);
    BoundNotIn(b, e.key);
    ToMapInsert(a, e, b);
    ToMapKeys(a + b);
    KeySetConcat(a, b);
  }

  /** In a sorted sequence, a slot whose left neighbour is below t and whose
      own key is above t splits the sequence into keys below and above t. */
  lemma SplitAround(s: seq<Entry>, i: nat, t: int)
    requires Sorted(s) && i <= |s|
    requires 0 < i ==> s[i - 1].key < t
    requires i < |s| ==> t < s[i].key
    ensures AllBelow(s[..i], t) && AllAbove(s[i..], t)
  {
    assert forall k :: 0 <= k < i - 1 ==> s[k].key < s[i - 1].key;
    assert forall k :: i < k < |s| ==> s[i].key < s[k].key;
  }
  /** Taking t out of a + x + b when a and b do not hold it only touches x. */
  lemma RemoveInContext(l: seq<Entry>, a: seq<Entry>, x: seq<Entry>, b: seq<Entry>, r: seq<Entry>, t: int)
    requires t !in KeySet(a) && t !in KeySet(b)
    ensures l + RemoveKey(a + x + b, t) + r == (l + a) + RemoveKey(x, t) + (b + r)
    ensures t in KeySet(a + x + b) <==> t in KeySet(x)
  {
    RemoveKeyConcat(a + x, b, t);
    RemoveKeyConcat(a, x, t);
    RemoveKeyAbsent(a, t);
    RemoveKeyAbsent(b, t);
    KeySetConcat(a + x, b);
    KeySetConcat(a, x);
  }

  /** In a sorted sequence an entry is the only one with its key: taking the
      key out leaves what is around it. */
  lemma RemoveEntry(a: seq<Entry>, e: Entry, b: seq<Entry>)
    requires Sorted(a + [e] + b)
    ensures RemoveKey(a + [e] + b, e.key) == a + b
  {
    var s := a + [e] + b;
    assert s[|a|] == e && s[..|a|] == a && s[|a| + 1..] == b;
    RemoveKeyAt(s, |a|);
  }

  /** Inside a sorted sequence, the map gives an entry's key that entry's value. */
  lemma ValueInContext(l: seq<Entry>, x: seq<Entry>, e: Entry, y: seq<Entry>, r: seq<Entry>)
    requires Sorted(l + (x + [e] + y) + r)
    ensures e.key in ToMap(l + (x + [e] + y) + r) && ToMap(l + (x + [e] + y) + r)[e.key] == e.value
  {
    var s := l + (x + [e] + y) + r;
    assert s[|l| + |x|] == e;
    ToMapAt(s, |l| + |x|);
  }
}
