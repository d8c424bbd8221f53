/** The members of a reuse group are kept in a slice that Go's container/heap keeps
    ordered as a binary min-heap on UniqueID (transportEndpointHeap). The group only
    ever uses heap.Push and heap.Remove; both are reproduced here step by step, as
    methods whose loops swap elements of the slice, and as the recursive functions
    Up, Down, HeapPush and HeapRemove that specify them. */
module EndpointHeap {
  import opened Tcpip

  /** transportEndpointHeap.Less: strictly smaller UniqueID. */
  predicate Less(h: seq<Endpoint>, i: nat, j: nat)
    requires i < |h| && j < |h|
  {
    h[i].uniqueID < h[j].uniqueID
  }

  /** transportEndpointHeap.Swap. */
  function Swap(h: seq<Endpoint>, i: nat, j: nat): (r: seq<Endpoint>)
    requires i < |h| && j < |h|
    ensures |r| == |h| && r[i] == h[j] && r[j] == h[i]
    ensures forall k {:trigger r[k]} :: 0 <= k < |h| && k != i && k != j ==> r[k] == h[k]
  {
    h[i := h[j]][j := h[i]]
  }

  /** The parent index container/heap computes as (j-1)/2. Go's division truncates
      towards zero, so the root is its own parent. */
  function Parent(j: nat): (p: nat)
    ensures j > 0 ==> p < j && (j == 2 * p + 1 || j == 2 * p + 2)
    ensures j == 0 ==> p == 0
  {
    if j == 0 then 0 else (j - 1) / 2
  }

  /** The heap order on the first n elements: no element is Less than its parent. */
  ghost predicate HeapOrdered(h: seq<Endpoint>, n: nat)
    requires n <= |h|
  {
    forall k {:trigger Parent(k)} :: 0 < k < n ==> h[Parent(k)].uniqueID <= h[k].uniqueID
  }

  /** container/heap's up(h, j): move h[j] towards the root while it is Less than its parent. */
  function Up(h: seq<Endpoint>, j: nat): (r: seq<Endpoint>)
    requires j < |h|
    ensures |r| == |h|
    ensures forall k {:trigger r[k]} :: j < k < |h| ==> r[k] == h[k]
    decreases j
  {
    var i := Parent(j);
    if i == j || !Less(h, j, i) then h else Up(Swap(h, i, j), i)
  }

  /** The child down(h, i, n) compares h[i] with: the left child, unless the right
      child exists within the first n elements and is Less than the left one. */
  function MinChild(h: seq<Endpoint>, i: nat, n: nat): (j: nat)
    requires 2 * i + 1 < n <= |h|
    ensures j < n && Parent(j) == i && i < j
    ensures forall c {:trigger Parent(c)} :: 0 < c < n && Parent(c) == i ==> h[j].uniqueID <= h[c].uniqueID
  {
    var j1 := 2 * i + 1;
    if j1 + 1 < n && Less(h, j1 + 1, j1) then j1 + 1 else j1
  }

  /** container/heap's down(h, i, n): move h[i] towards the leaves of the first n
      elements while its smaller child is Less than it. Returns the slice and the
      index where the element came to rest. */
  function Down(h: seq<Endpoint>, i: nat, n: nat): (r: (seq<Endpoint>, nat))
    requires i < n <= |h|
    ensures |r.0| == |h|
    ensures i <= r.1 < n
    ensures forall k {:trigger r.0[k]} :: n <= k < |h| ==> r.0[k] == h[k]
    ensures r.1 == i ==> r.0 == h
    decreases n - i
  {
    if 2 * i + 1 >= n then (h, i)
    else
      var j := MinChild(h, i, n);
      if !Less(h, j, i) then (h, i) else Down(Swap(h, i, j), j, n)
  }

  /** heap.Push: append, then up from the new last index. */
  function HeapPush(h: seq<Endpoint>, x: Endpoint): (r: seq<Endpoint>)
    ensures |r| == |h| + 1
    ensures multiset(r) == multiset(h) + multiset{x}
  {
    UpPermutes(h + [x], |h|);
    Up(h + [x], |h|)
  }

  /** The slice heap.Remove(h, i) has built just before its final Pop: h[i] swapped
      with the last element, and the order of the shortened prefix restored by down
      and, when down did not move the element, by up. */
  function Sifted(h: seq<Endpoint>, i: nat): (r: seq<Endpoint>)
    requires i < |h|
    ensures |r| == |h|
    ensures r[|h| - 1] == h[i]
  {
    var n := |h| - 1;
    if n == i then h
    else
      var d := Down(Swap(h, i, n), i, n);
      if d.1 > i then d.0 else Up(d.0, i)
  }

  /** heap.Remove(h, i): Sifted, then Pop the last element. */
  function HeapRemove(h: seq<Endpoint>, i: nat): (r: seq<Endpoint>)
    requires i < |h|
    ensures |r| == |h| - 1
    ensures multiset(r) == multiset(h) - multiset{h[i]}
  {
    var s := Sifted(h, i);
    SiftedPermutes(h, i);
    assert s == s[..|h| - 1] + [s[|h| - 1]];
    s[..|h| - 1]
  }

  lemma SwapPermutes(h: seq<Endpoint>, i: nat, j: nat)
    requires i < |h| && j < |h|
    ensures multiset(Swap(h, i, j)) == multiset(h)
  {
  }

  lemma {:induction false} UpPermutes(h: seq<Endpoint>, j: nat)
    requires j < |h|
    ensures multiset(Up(h, j)) == multiset(h)
    decreases j
  {
    var i := Parent(j);
    if i != j && Less(h, j, i) {
      SwapPermutes(h, i, j);
      UpPermutes(Swap(h, i, j), i);
    }
  }

  lemma {:induction false} DownPermutes(h: seq<Endpoint>, i: nat, n: nat)
    requires i < n <= |h|
    ensures multiset(Down(h, i, n).0) == multiset(h)
    decreases n - i
  {
    if 2 * i + 1 < n {
      var j := MinChild(h, i, n);
      if Less(h, j, i) {
        SwapPermutes(h, i, j);
        DownPermutes(Swap(h, i, j), j, n);
      }
    }
  }

  lemma SiftedPermutes(h: seq<Endpoint>, i: nat)
    requires i < |h|
    ensures multiset(Sifted(h, i)) == multiset(h)
  {
    var n := |h| - 1;
    if n != i {
      var s := Swap(h, i, n);
      SwapPermutes(h, i, n);
      DownPermutes(s, i, n);
      var d := Down(s, i, n);
      if d.1 > i {
        assert Sifted(h, i) == d.0;
      } else {
        assert Sifted(h, i) == Up(d.0, i);
        UpPermutes(d.0, i);
      }
    }
  }

  // ---------------------------------------------------------------------------
  // The loops of container/heap, proved equal to the functions above.

  /** up(h, j0). */
  method SiftUp(h: seq<Endpoint>, j0: nat) returns (r: seq<Endpoint>)
    requires j0 < |h|
    ensures r == Up(h, j0)
  {
    r := h;
    var j: nat := j0;
    while true
      invariant j < |r| && Up(r, j) == Up(h, j0)
      decreases j
    {
      var i := Parent(j);
      if i == j || !Less(r, j, i) {
        break;
      }
      r := Swap(r, i, j);
      j := i;
    }
  }

  /** down(h, i0, n); moved reports whether the element left index i0. */
  method SiftDown(h: seq<Endpoint>, i0: nat, n: nat) returns (r: seq<Endpoint>, moved: bool)
    requires i0 < n <= |h|
    ensures r == Down(h, i0, n).0
    ensures moved == (Down(h, i0, n).1 > i0)
  {
    r := h;
    var i: nat := i0;
    while true
      invariant i0 <= i < n <= |r|
      invariant Down(r, i, n) == Down(h, i0, n)
      decreases n - i
    {
      var j1 := 2 * i + 1;
      if j1 >= n {
        assert Down(r, i, n) == (r, i);
        break;
      }
      var j := MinChild(r, i, n);
      if !Less(r, j, i) {
        assert Down(r, i, n) == (r, i);
        break;
      }
      assert Down(r, i, n) == Down(Swap(r, i, j), j, n);
      r := Swap(r, i, j);
      i := j;
    }
    moved := i > i0;
  }

  /** heap.Push(&h, x). */
  method Push(h: seq<Endpoint>, x: Endpoint) returns (r: seq<Endpoint>)
    ensures r == HeapPush(h, x)
  {
    r := h + [x];
    r := SiftUp(r, |r| - 1);
  }

  /** heap.Remove(&h, i); the removed element is not used by the demultiplexer. */
  method Remove(h: seq<Endpoint>, i: nat) returns (r: seq<Endpoint>)
    requires i < |h|
    ensures r == HeapRemove(h, i)
  {
    var n := |h| - 1;
    r := h;
    if n != i {
      r := Swap(r, i, n);
      var moved;
      r, moved := SiftDown(r, i, n);
      if !moved {
        r := SiftUp(r, i);
      }
    }
    assert r == Sifted(h, i);
    r := r[..n];
  }

  // ---------------------------------------------------------------------------
  // Push and Remove keep the heap order.

  /** The order holds everywhere in the first n elements except between h[j] and its
      parent, and h[j]'s parent is not larger than h[j]'s children. */
  ghost predicate UpInvariant(h: seq<Endpoint>, j: nat, n: nat)
    requires j < n <= |h|
  {
    && (forall k {:trigger Parent(k)} :: 0 < k < n && k != j ==> h[Parent(k)].uniqueID <= h[k].uniqueID)
    && (j > 0 ==> forall c :: 0 < c < n && Parent(c) == j ==> h[Parent(j)].uniqueID <= h[c].uniqueID)
  }

  /** The order holds everywhere in the first n elements except between h[i] and its
      children, and h[i]'s parent is not larger than h[i]'s children. */
  ghost predicate DownInvariant(h: seq<Endpoint>, i: nat, n: nat)
    requires i < n <= |h|
  {
    && (forall k {:trigger Parent(k)} :: 0 < k < n && Parent(k) != i ==> h[Parent(k)].uniqueID <= h[k].uniqueID)
    && (i > 0 ==> forall c :: 0 < c < n && Parent(c) == i ==> h[Parent(i)].uniqueID <= h[c].uniqueID)
  }

  lemma {:induction false} UpRestoresOrder(h: seq<Endpoint>, j: nat, n: nat)
    requires j < n <= |h| && UpInvariant(h, j, n)
    ensures HeapOrdered(Up(h, j), n)
    decreases j
  {
    var i := Parent(j);
    if i == j || !Less(h, j, i) {
      assert HeapOrdered(h, n);
    } else {
      var s := Swap(h, i, j);
      forall k | 0 < k < n && k != i
        ensures s[Parent(k)].uniqueID <= s[k].uniqueID
      {
        if k == j {
        } else if Parent(k) == j {
          assert s[k] == h[k];
        } else if Parent(k) == i {
          assert h[i].uniqueID <= h[k].uniqueID;
        } else {
          assert s[k] == h[k] && s[Parent(k)] == h[Parent(k)];
        }
      }
      if i > 0 {
        forall c | 0 < c < n && Parent(c) == i
          ensures s[Parent(i)].uniqueID <= s[c].uniqueID
        {
          assert h[Parent(i)].uniqueID <= h[i].uniqueID;
          if c != j {
            assert h[i].uniqueID <= h[c].uniqueID;
          }
        }
      }
      UpRestoresOrder(s, i, n);
    }
  }

  /** One step of down keeps the down invariant, one level lower. */
  lemma DownStep(h: seq<Endpoint>, i: nat, n: nat)
    requires 2 * i + 1 < n <= |h| && DownInvariant(h, i, n)
    requires Less(h, MinChild(h, i, n), i)
    ensures DownInvariant(Swap(h, i, MinChild(h, i, n)), MinChild(h, i, n), n)
  {
    var j := MinChild(h, i, n);
    var s := Swap(h, i, j);
    forall k | 0 < k < n && Parent(k) != j
      ensures s[Parent(k)].uniqueID <= s[k].uniqueID
    {
      if k == j {
      } else if Parent(k) == i {
        assert s[k] == h[k];
      } else if k == i {
        assert s[Parent(i)] == h[Parent(i)];
      } else {
        assert s[k] == h[k] && s[Parent(k)] == h[Parent(k)];
      }
    }
    forall c | 0 < c < n && Parent(c) == j
      ensures s[Parent(j)].uniqueID <= s[c].uniqueID
    {
      assert s[c] == h[c];
    }
  }

  lemma {:induction false} DownRestoresOrder(h: seq<Endpoint>, i: nat, n: nat)
    requires i < n <= |h| && DownInvariant(h, i, n)
    ensures HeapOrdered(Down(h, i, n).0, n)
    decreases n - i
  {
    if 2 * i + 1 >= n {
      assert HeapOrdered(h, n);
    } else {
      var j := MinChild(h, i, n);
      if !Less(h, j, i) {
        assert HeapOrdered(h, n);
      } else {
        DownStep(h, i, n);
        DownRestoresOrder(Swap(h, i, j), j, n);
      }
    }
  }

  lemma PushKeepsOrder(h: seq<Endpoint>, x: Endpoint)
    requires HeapOrdered(h, |h|)
    ensures HeapOrdered(HeapPush(h, x), |h| + 1)
  {
    var s := h + [x];
    assert UpInvariant(s, |h|, |h| + 1) by {
      forall k | 0 < k < |h| + 1 && k != |h|
        ensures s[Parent(k)].uniqueID <= s[k].uniqueID
      {
        assert s[k] == h[k] && s[Parent(k)] == h[Parent(k)];
      }
    }
    UpRestoresOrder(s, |h|, |h| + 1);
  }

  /** After h[i] is swapped with the last element, the shortened prefix satisfies the
      down invariant except, possibly, between index i and its parent. */
  lemma SwapLastForRemove(h: seq<Endpoint>, i: nat)
    requires i < |h| - 1 && HeapOrdered(h, |h|)
    ensures var s := Swap(h, i, |h| - 1);
      forall k {:trigger Parent(k)} :: 0 < k < |h| - 1 && Parent(k) != i && k != i ==> s[Parent(k)].uniqueID <= s[k].uniqueID
  {
    var n := |h| - 1;
    var s := Swap(h, i, n);
    forall k | 0 < k < n && Parent(k) != i && k != i
      ensures s[Parent(k)].uniqueID <= s[k].uniqueID
    {
      assert s[k] == h[k] && s[Parent(k)] == h[Parent(k)];
    }
  }

  /** When down moves the element, its first step leaves the down invariant at the
      smaller child: the child that moved up is not smaller than h[i]'s parent. */
  lemma RemoveMovedDown(h: seq<Endpoint>, i: nat)
    requires i < |h| - 1 && HeapOrdered(h, |h|)
    requires 2 * i + 1 < |h| - 1
    requires Less(Swap(h, i, |h| - 1), MinChild(Swap(h, i, |h| - 1), i, |h| - 1), i)
    ensures var s := Swap(h, i, |h| - 1); var j := MinChild(s, i, |h| - 1);
      DownInvariant(Swap(s, i, j), j, |h| - 1)
  {
    var n := |h| - 1;
    var s := Swap(h, i, n);
    var j := MinChild(s, i, n);
    var t := Swap(s, i, j);
    forall k | 0 < k < n && Parent(k) != j
      ensures t[Parent(k)].uniqueID <= t[k].uniqueID
    {
      RemoveMovedDownAt(h, i, k);
    }
    forall c | 0 < c < n && Parent(c) == j
      ensures t[Parent(j)].uniqueID <= t[c].uniqueID
    {
      assert t[c] == h[c] && t[Parent(j)] == h[j];
    }
  }

  lemma RemoveMovedDownAt(h: seq<Endpoint>, i: nat, k: nat)
    requires i < |h| - 1 && HeapOrdered(h, |h|)
    requires 2 * i + 1 < |h| - 1
    requires Less(Swap(h, i, |h| - 1), MinChild(Swap(h, i, |h| - 1), i, |h| - 1), i)
    requires 0 < k < |h| - 1 && Parent(k) != MinChild(Swap(h, i, |h| - 1), i, |h| - 1)
    ensures var s := Swap(h, i, |h| - 1); var t := Swap(s, i, MinChild(s, i, |h| - 1));
      t[Parent(k)].uniqueID <= t[k].uniqueID
  {
    var n := |h| - 1;
    var s := Swap(h, i, n);
    var j := MinChild(s, i, n);
    var t := Swap(s, i, j);
    if k == j {
    } else if Parent(k) == i {
      assert t[k] == s[k] && t[i] == s[j];
    } else if k == i {
      assert h[Parent(i)].uniqueID <= h[i].uniqueID <= h[j].uniqueID;
      assert t[Parent(i)] == h[Parent(i)] && t[i] == h[j];
    } else {
      assert t[k] == h[k] && t[Parent(k)] == h[Parent(k)];
    }
  }

  /** When down leaves the element in place, it is not larger than its children, and
      the up invariant holds at i. */
  lemma RemoveStayedDown(h: seq<Endpoint>, i: nat)
    requires i < |h| - 1 && HeapOrdered(h, |h|)
    requires Down(Swap(h, i, |h| - 1), i, |h| - 1).1 == i
    ensures UpInvariant(Swap(h, i, |h| - 1), i, |h| - 1)
  {
    var n := |h| - 1;
    var s := Swap(h, i, n);
    SwapLastForRemove(h, i);
    forall k | 0 < k < n && k != i
      ensures s[Parent(k)].uniqueID <= s[k].uniqueID
    {
      if Parent(k) == i {
        assert 2 * i + 1 < n;
        var j := MinChild(s, i, n);
        assert !Less(s, j, i);
      }
    }
    if i > 0 {
      forall c | 0 < c < n && Parent(c) == i
        ensures s[Parent(i)].uniqueID <= s[c].uniqueID
      {
        assert h[Parent(i)].uniqueID <= h[i].uniqueID <= h[c].uniqueID;
        assert s[c] == h[c] && s[Parent(i)] == h[Parent(i)];
      }
    }
  }

  lemma RemoveKeepsOrder(h: seq<Endpoint>, i: nat)
    requires i < |h| && HeapOrdered(h, |h|)
    ensures HeapOrdered(HeapRemove(h, i), |h| - 1)
  {
    var n := |h| - 1;
    if n != i {
      var s := Swap(h, i, n);
      var d := Down(s, i, n);
      if d.1 > i {
        var j := MinChild(s, i, n);
        RemoveMovedDown(h, i);
        assert d == Down(Swap(s, i, j), j, n);
        DownRestoresOrder(Swap(s, i, j), j, n);
      } else {
        RemoveStayedDown(h, i);
        UpRestoresOrder(s, i, n);
      }
      assert HeapOrdered(Sifted(h, i), n);
    }
    assert HeapRemove(h, i) == Sifted(h, i)[..n];
  }
}
