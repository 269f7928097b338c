/** Heap order on a sequence of priorities, and what one step of container/heap's sifting does to it. */
module HeapOrder {

  /** (k - 1) / 2 as container/heap computes it: for 0, Go's division gives 0. */
  function Parent(k: nat): (p: nat)
    ensures p <= k && (k > 0 ==> p < k)
  {
    if k == 0 then 0 else (k - 1) / 2
  }

  predicate OrderedAt(keys: seq<int>, k: nat)
    requires k < |keys|
  {
    keys[Parent(k)] <= keys[k]
  }

  /** Heap order among the first n keys. */
  predicate Ordered(keys: seq<int>, n: nat)
    requires n <= |keys|
  {
    forall k :: 0 <= k < n ==> OrderedAt(keys, k)
  }

  /** The children of hole are not below hole's parent. */
  predicate Bridged(keys: seq<int>, n: nat, hole: nat)
    requires hole < |keys| && n <= |keys|
  {
    hole > 0 ==> forall k :: 0 <= k < n && Parent(k) == hole ==> keys[Parent(hole)] <= keys[k]
  }

  /** Heap order, except that the key at hole may be too small for its place. */
  predicate OrderedButUp(keys: seq<int>, n: nat, hole: nat)
    requires hole < |keys| && n <= |keys|
  {
    (forall k :: 0 <= k < n && k != hole ==> OrderedAt(keys, k)) && Bridged(keys, n, hole)
  }

  /** Heap order, except that the key at hole may be too large for its place; the keys above it are in order. */
  predicate OrderedButDown(keys: seq<int>, n: nat, hole: nat)
    requires hole < |keys| && n <= |keys|
  {
    (forall k :: 0 <= k < n && Parent(k) != hole ==> OrderedAt(keys, k)) && Bridged(keys, n, hole)
  }

  /** Heap order, except that the key at hole may be wrong either way. */
  predicate OrderedButAt(keys: seq<int>, n: nat, hole: nat)
    requires hole < |keys| && n <= |keys|
  {
    (forall k :: 0 <= k < n && k != hole && Parent(k) != hole ==> OrderedAt(keys, k)) && Bridged(keys, n, hole)
  }

  function Swapped<T>(s: seq<T>, i: nat, j: nat): (t: seq<T>)
    requires i < |s| && j < |s|
    ensures |t| == |s|
  {
    s[i := s[j]][j := s[i]]
  }

  /** The root is least. */
  lemma {:induction false} RootIsLeast(keys: seq<int>, n: nat, k: nat)
    requires k < n <= |keys| && Ordered(keys, n)
    ensures keys[0] <= keys[k]
  {
    if k > 0 {
      RootIsLeast(keys, n, Parent(k));
      assert OrderedAt(keys, k);
    }
  }

  /** A key smaller than its parent's trades places with it. */
  lemma UpStep(keys: seq<int>, n: nat, j: nat)
    requires 0 < j < n <= |keys| && OrderedButUp(keys, n, j) && keys[j] < keys[Parent(j)]
    ensures OrderedButUp(Swapped(keys, Parent(j), j), n, Parent(j))
  {
    var i, t := Parent(j), Swapped(keys, Parent(j), j);
    forall k | 0 <= k < n && k != i
      ensures OrderedAt(t, k)
    {
      assert k != j ==> OrderedAt(keys, k);
    }
    if i > 0 {
      forall k | 0 <= k < n && Parent(k) == i
        ensures t[Parent(i)] <= t[k]
      {
        assert OrderedAt(keys, i);
        assert k != j ==> OrderedAt(keys, k);
      }
    }
  }

  /** Sifting up ends: the key has reached the root or is in order with its parent. */
  lemma UpDone(keys: seq<int>, n: nat, j: nat)
    requires j < n <= |keys| && OrderedButUp(keys, n, j) && (j == 0 || keys[j] >= keys[Parent(j)])
    ensures Ordered(keys, n)
  {
  }

  /** j is the child of i that container/heap would promote. */
  predicate LeastChild(keys: seq<int>, n: nat, i: nat, j: nat)
    requires n <= |keys|
  {
    i < j < n && Parent(j) == i && forall k :: i < k < n && Parent(k) == i ==> keys[j] <= keys[k]
  }

  /** The first trade of a sift down leaves everything above in order. */
  lemma DownFirst(keys: seq<int>, n: nat, i: nat, j: nat)
    requires i < |keys| && n <= |keys| && OrderedButAt(keys, n, i) && LeastChild(keys, n, i, j) && keys[j] < keys[i]
    ensures OrderedButDown(Swapped(keys, i, j), n, j)
  {
    var t := Swapped(keys, i, j);
    forall k | 0 <= k < n && Parent(k) != j
      ensures OrderedAt(t, k)
    {
      if k != i && Parent(k) != i {
        assert OrderedAt(keys, k);
      }
    }
    forall k | 0 <= k < n && Parent(k) == j
      ensures t[Parent(j)] <= t[k]
    {
      assert OrderedAt(keys, k);
    }
  }

  lemma DownAgain(keys: seq<int>, n: nat, i: nat, j: nat)
    requires n <= |keys| && i < |keys| && OrderedButDown(keys, n, i) && LeastChild(keys, n, i, j) && keys[j] < keys[i]
    ensures OrderedButDown(Swapped(keys, i, j), n, j)
  {
    assert OrderedButAt(keys, n, i);
    DownFirst(keys, n, i, j);
  }

  /** A sift down that stops at i with nothing smaller among the children. */
  lemma DownDone(keys: seq<int>, n: nat, i: nat)
    requires i < |keys| && n <= |keys|
    requires forall k :: i < k < n && Parent(k) == i ==> keys[i] <= keys[k]
    ensures OrderedButDown(keys, n, i) ==> Ordered(keys, n)
    ensures i < n && OrderedButAt(keys, n, i) ==> OrderedButUp(keys, n, i)
  {
    if OrderedButDown(keys, n, i) {
      forall k | 0 <= k < n
        ensures OrderedAt(keys, k)
      {
      }
    }
    if i < n && OrderedButAt(keys, n, i) {
      forall k | 0 <= k < n && k != i
        ensures OrderedAt(keys, k)
      {
      }
    }
  }

  lemma Children(i: nat, k: nat)
    ensures Parent(k) == i && k > i <==> k == 2 * i + 1 || k == 2 * i + 2
  {
  }

  /** A new key may be put anywhere into a heap; only its place is then in doubt. */
  lemma PutAt(keys: seq<int>, n: nat, i: nat, v: int)
    requires i < n <= |keys| && Ordered(keys, n)
    ensures OrderedButAt(keys[i := v], n, i)
  {
    var t := keys[i := v];
    forall k | 0 <= k < n && k != i && Parent(k) != i
      ensures OrderedAt(t, k)
    {
      assert OrderedAt(keys, k);
    }
    if i > 0 {
      forall k | 0 <= k < n && Parent(k) == i
        ensures t[Parent(i)] <= t[k]
      {
        assert OrderedAt(keys, k) && OrderedAt(keys, i);
      }
    }
  }

  /** A key at the end of a heap is in doubt only against its parent. */
  lemma AppendKey(keys: seq<int>, v: int)
    requires Ordered(keys, |keys|)
    ensures OrderedButUp(keys + [v], |keys| + 1, |keys|)
  {
    forall k | 0 <= k < |keys|
      ensures OrderedAt(keys + [v], k)
    {
      assert OrderedAt(keys, k);
    }
  }

  /** Exchanging a key with the last one leaves the first n in order but at its place. */
  lemma SwapOut(keys: seq<int>, n: nat, i: nat)
    requires i <= n && |keys| == n + 1 && Ordered(keys, n + 1)
    ensures OrderedButAt(Swapped(keys, i, n), n, i)
  {
    var t := Swapped(keys, i, n);
    forall k | 0 <= k < n && k != i && Parent(k) != i
      ensures OrderedAt(t, k)
    {
      assert OrderedAt(keys, k);
    }
    if i > 0 {
      forall k | 0 <= k < n && Parent(k) == i
        ensures t[Parent(i)] <= t[k]
      {
        assert OrderedAt(keys, k) && OrderedAt(keys, i);
      }
    }
  }

  lemma OrderedShorter(keys: seq<int>, n: nat)
    requires n + 1 <= |keys| && Ordered(keys, n + 1)
    ensures Ordered(keys, n)
  {
  }

  lemma OrderedPrefix(keys: seq<int>, n: nat)
    requires n <= |keys| && Ordered(keys, n)
    ensures Ordered(keys[..n], n)
  {
    forall k | 0 <= k < n
      ensures OrderedAt(keys[..n], k)
    {
      assert OrderedAt(keys, k);
    }
  }
}
