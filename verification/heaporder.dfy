/** Heap order on sequences of expiry times, apart from the objects that carry them. */
module HeapOrder {
  /** `(j - 1) / 2` as Go rounds it: zero for zero. */
  function Parent(j: nat): nat {
    if j == 0 then 0 else (j - 1) / 2
  }

  function SwapAt<T>(s: seq<T>, i: nat, j: nat): (r: seq<T>)
    requires i < |s| && j < |s|
    ensures |r| == |s|
  {
    s[i := s[j]][j := s[i]]
  }

  lemma SwapKeepsItems<T>(s: seq<T>, i: nat, j: nat)
    requires i < |s| && j < |s|
    ensures multiset(SwapAt(s, i, j)) == multiset(s)
  {
  }

  lemma SwapAtEnds<T>(s: seq<T>, i: nat, j: nat)
    requires i < |s| && j < |s|
    ensures var r := SwapAt(s, i, j);
            r[j] == s[i] && r[i] == s[j] && (i != 0 && j != 0 ==> r[0] == s[0])
  {
  }

  ghost predicate Heap(k: seq<int>) {
    forall j | 0 < j < |k| :: k[Parent(j)] <= k[j]
  }

  /** In order except that the key at i may be anything. */
  ghost predicate HeapBut(k: seq<int>, i: nat) {
    && (forall j | 0 < j < |k| && j != i && Parent(j) != i :: k[Parent(j)] <= k[j])
    && (forall j | 0 < j < |k| && Parent(j) == i && 0 < i < |k| :: k[Parent(i)] <= k[j])
  }

  /** In order except that the key at i may be smaller than its parent's. */
  ghost predicate HeapUp(k: seq<int>, i: nat) {
    && (forall j | 0 < j < |k| && j != i :: k[Parent(j)] <= k[j])
    && (forall j | 0 < j < |k| && Parent(j) == i && 0 < i < |k| :: k[Parent(i)] <= k[j])
  }

  /** The child `down` compares with: the right one only when it is strictly smaller. */
  function SmallChild(k: seq<int>, i: nat): (c: nat)
    requires 2 * i + 1 < |k|
    ensures c < |k| && i < c && Parent(c) == i
    ensures forall j | 0 < j < |k| && Parent(j) == i :: k[c] <= k[j]
    ensures c == 2 * i + 2 <==> 2 * i + 2 < |k| && k[2 * i + 2] < k[2 * i + 1]
  {
    if 2 * i + 2 < |k| && k[2 * i + 2] < k[2 * i + 1] then 2 * i + 2 else 2 * i + 1
  }

  /** `down` stops at i. */
  predicate DownStops(k: seq<int>, i: nat) {
    i < |k| && (2 * i + 1 < |k| ==> k[i] <= k[SmallChild(k, i)])
  }

  ghost predicate LeastHead(k: seq<int>) {
    forall x | 0 <= x < |k| :: k[0] <= k[x]
  }

  lemma HeadIsNotLess(k: seq<int>, j: nat)
    requires LeastHead(k) && 0 < j < |k| && k[j] < k[Parent(j)]
    ensures 0 < Parent(j)
  {
  }

  lemma SwapKeepsLeastHead(k: seq<int>, i: nat, j: nat)
    requires LeastHead(k) && 0 < i < |k| && 0 < j < |k|
    ensures LeastHead(SwapAt(k, i, j))
  {
  }

  lemma SameItems<T>(s: seq<T>, r: seq<T>)
    requires multiset(s) == multiset(r)
    ensures |s| == |r| && (set t | t in s) == (set t | t in r)
  {
    assert |multiset(s)| == |s| && |multiset(r)| == |r|;
    forall t
      ensures t in s <==> t in r
    {
      assert t in s <==> t in multiset(s);
      assert t in r <==> t in multiset(r);
    }
  }

  lemma {:induction false} RootIsLeast(k: seq<int>, i: nat)
    requires Heap(k) && i < |k|
    ensures k[0] <= k[i]
  {
    if i > 0 {
      RootIsLeast(k, Parent(i));
    }
  }

  lemma HeapHasLeastHead(k: seq<int>)
    requires Heap(k)
    ensures LeastHead(k)
  {
    forall i | 0 <= i < |k|
      ensures k[0] <= k[i]
    {
      RootIsLeast(k, i);
    }
  }

  /** Sifting down past the smaller child moves the odd key one level down. */
  lemma DownSwap(k: seq<int>, i: nat)
    requires HeapBut(k, i) && 2 * i + 1 < |k| && k[SmallChild(k, i)] < k[i]
    ensures var c := SmallChild(k, i);
            var r := SwapAt(k, i, c);
            HeapBut(r, c) && r[Parent(c)] <= r[c]
  {
    var c := SmallChild(k, i);
    var r := SwapAt(k, i, c);
    assert i < c && Parent(i) <= i;
    forall j | 0 < j < |r| && j != c && Parent(j) != c
      ensures r[Parent(j)] <= r[j]
    {
      assert Parent(j) < j;
      if j == i {
        assert r[Parent(j)] == k[Parent(i)] && r[j] == k[c];
      }
    }
  }

  /** Nowhere lower to go: either the heap is in order or the key at i is too small for its parent. */
  lemma DownDone(k: seq<int>, i: nat)
    requires HeapBut(k, i) && DownStops(k, i)
    ensures HeapUp(k, i)
    ensures i == 0 || k[Parent(i)] <= k[i] ==> Heap(k)
  {
    assert forall j | 0 < j < |k| && Parent(j) == i :: 2 * i + 1 < |k|;
    forall j | 0 < j < |k| && j != i
      ensures k[Parent(j)] <= k[j]
    {
      if Parent(j) == i {
        assert k[i] <= k[j];
      }
    }
  }

  /** Sifting up moves the odd key one level up. */
  lemma UpSwap(k: seq<int>, i: nat)
    requires HeapUp(k, i) && 0 < i < |k| && k[i] < k[Parent(i)]
    ensures HeapUp(SwapAt(k, Parent(i), i), Parent(i))
  {
    var p := Parent(i);
    var r := SwapAt(k, p, i);
    assert p < i && (0 < p ==> Parent(p) < p);
    forall j | 0 < j < |r| && j != p
      ensures r[Parent(j)] <= r[j]
    {
      assert Parent(j) < j;
      if Parent(j) == i {
        assert k[p] <= k[j];
      } else if Parent(j) == p && j != i {
        assert k[p] <= k[j];
      }
    }
    forall j | 0 < j < |r| && Parent(j) == p && 0 < p
      ensures r[Parent(p)] <= r[j]
    {
      assert k[Parent(p)] <= k[p];
      if j != i {
        assert k[p] <= k[j];
      }
    }
  }

  lemma UpDone(k: seq<int>, j: nat)
    requires HeapUp(k, j) && j < |k| && (j == 0 || k[Parent(j)] <= k[j])
    ensures Heap(k)
  {
  }

  /** A new last key is the only one that can be out of order. */
  lemma AppendBut(k: seq<int>, x: int)
    requires Heap(k)
    ensures HeapBut(k + [x], |k|)
  {
    var r := k + [x];
    forall j | 0 < j < |r|
      ensures Parent(j) < j
    {
    }
  }

  /** Putting the last key in the place of the one at i. */
  lemma RemoveBut(k: seq<int>, i: nat)
    requires Heap(k) && i < |k|
    ensures HeapBut(SwapAt(k, i, |k| - 1)[..|k| - 1], i)
  {
    var n := |k| - 1;
    var r := SwapAt(k, i, n)[..n];
    forall j | 0 < j < |r| && j != i && Parent(j) != i
      ensures r[Parent(j)] <= r[j]
    {
      assert Parent(j) < j;
    }
    forall j | 0 < j < |r| && Parent(j) == i && 0 < i < |r|
      ensures r[Parent(i)] <= r[j]
    {
      assert Parent(i) < i < j;
      assert k[Parent(i)] <= k[i] <= k[j];
    }
  }

  /** Changing one key. */
  lemma ChangeBut(k: seq<int>, i: nat, x: int)
    requires Heap(k) && i < |k|
    ensures HeapBut(k[i := x], i)
  {
    var r := k[i := x];
    forall j | 0 < j < |r|
      ensures Parent(j) < j
    {
    }
    forall j | 0 < j < |r| && Parent(j) == i && 0 < i
      ensures r[Parent(i)] <= r[j]
    {
      assert k[Parent(i)] <= k[i] <= k[j];
    }
  }

  lemma HeapCut(k: seq<int>, n: nat)
    requires Heap(k) && n <= |k|
    ensures Heap(k[..n])
  {
    forall j | 0 < j < n
      ensures Parent(j) < j
    {
    }
  }
}
