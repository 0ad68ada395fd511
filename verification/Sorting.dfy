/** qsort of user/libc/ext.c: heapsort in place, driven by a comparison function. */
module Sorting {
  type Order = (int, int) -> int

  /** What a comparison function has to be: a total preorder, with signs that
      agree in both directions. */
  ghost predicate Consistent(cmp: Order) {
    && (forall a, b :: cmp(a, b) < 0 <==> cmp(b, a) > 0)
    && (forall a, b, c :: cmp(a, b) <= 0 && cmp(b, c) <= 0 ==> cmp(a, c) <= 0)
  }

  lemma Trans(cmp: Order, a: int, b: int, c: int)
    requires Consistent(cmp) && cmp(a, b) <= 0 && cmp(b, c) <= 0
    ensures cmp(a, c) <= 0
  {
  }

  lemma Total(cmp: Order, a: int, b: int)
    requires Consistent(cmp)
    ensures cmp(a, a) == 0 && (cmp(a, b) >= 0 ==> cmp(b, a) <= 0) && (cmp(a, b) < 0 ==> cmp(b, a) > 0)
  {
  }

  function Parent(j: nat): nat
    requires j > 0
  {
    (j - 1) / 2
  }

  /** Below a position, parents are not smaller than their children. */
  ghost predicate Heap(cmp: Order, s: seq<int>, from: nat, n: nat) {
    n <= |s| && forall j :: 0 < j < n && from <= Parent(j) ==> cmp(s[j], s[Parent(j)]) <= 0
  }

  /** The same except at one node, whose children its parent still covers. */
  ghost predicate HeapBut(cmp: Order, s: seq<int>, from: nat, n: nat, root: nat) {
    && n <= |s|
    && (forall j :: 0 < j < n && from <= Parent(j) && Parent(j) != root ==> cmp(s[j], s[Parent(j)]) <= 0)
    && (root > 0 && from <= Parent(root) ==> forall j :: 0 < j < n && Parent(j) == root ==> cmp(s[j],
                                                                                                s[Parent(root)]) <= 0)
  }

  ghost predicate Sorted(cmp: Order, s: seq<int>, from: nat) {
    from <= |s| && forall i, j :: from <= i < j < |s| ==> cmp(s[i], s[j]) <= 0
  }

  function Swapped(s: seq<int>, i: nat, j: nat): (t: seq<int>)
    requires i < |s| && j < |s|
    ensures |t| == |s|
  {
    s[i := s[j]][j := s[i]]
  }

  lemma SwapBag(s: seq<int>, i: nat, j: nat, n: nat)
    requires i < n <= |s| && j < n
    ensures multiset(Swapped(s, i, j)) == multiset(s)
    ensures multiset(Swapped(s, i, j)[..n]) == multiset(s[..n]) && Swapped(s, i, j)[n..] == s[n..]
  {
    assert Swapped(s, i, j)[..n] == Swapped(s[..n], i, j);
  }

  /** One level of sift_down: the larger child goes up. */
  lemma SiftOne(cmp: Order, s: seq<int>, from: nat, n: nat, root: nat, child: nat)
    requires Consistent(cmp) && HeapBut(cmp, s, from, n, root) && from <= root && 0 < child < n && Parent(child) == root
    requires cmp(s[root], s[child]) <= 0
    requires forall j :: 0 < j < n && Parent(j) == root ==> cmp(s[j], s[child]) <= 0
    ensures HeapBut(cmp, Swapped(s, root, child), from, n, child)
  {
    hide Consistent;
    var t := Swapped(s, root, child);
    forall j | 0 < j < n && from <= Parent(j) && Parent(j) != child ensures cmp(t[j], t[Parent(j)]) <= 0 {
      if Parent(j) == root {
        if j == child { assert t[j] == s[root]; } else { assert t[j] == s[j]; }
      } else if j == root {
        assert t[j] == s[child] && t[Parent(j)] == s[Parent(root)];
      }
    }
    forall j | 0 < j < n && Parent(j) == child ensures cmp(t[j], t[Parent(child)]) <= 0 {
      assert t[j] == s[j] && t[Parent(child)] == s[child];
    }
  }

  lemma SiftDone(cmp: Order, s: seq<int>, from: nat, n: nat, root: nat)
    requires HeapBut(cmp, s, from, n, root) && forall j :: 0 < j < n && Parent(j) == root ==> cmp(s[j], s[root]) <= 0
    ensures Heap(cmp, s, from, n)
  {
  }

  lemma SiftStart(cmp: Order, s: seq<int>, from: nat, n: nat)
    requires Heap(cmp, s, from + 1, n)
    ensures HeapBut(cmp, s, from, n, from)
  {
  }

  /** sift_down: the part becomes a heap from the start position on; nothing outside
      it moves, nothing is lost. */
  method SiftDown(a: array<int>, start: nat, count: nat, cmp: Order)
    requires Consistent(cmp) && start < count <= a.Length && Heap(cmp, a[..], start + 1, count)
    modifies a
    ensures Heap(cmp, a[..], start, count)
    ensures multiset(a[..count]) == old(multiset(a[..count])) && a[count..] == old(a[count..])
  {
    hide Consistent, Heap, HeapBut;
    SiftStart(cmp, a[..], start, count);
    var root := start;
    while true
      invariant start <= root < count && HeapBut(cmp, a[..], start, count, root)
      invariant multiset(a[..count]) == old(multiset(a[..count])) && a[count..] == old(a[count..])
      decreases count - root
    {
      var child := 2 * root + 1;
      if child >= count {
        SiftDone(cmp, a[..], start, count, root);
        return;
      }
      if child + 1 < count && cmp(a[child], a[child + 1]) < 0 { child := child + 1; }
      Children(cmp, a[..], count, root, child);
      if cmp(a[root], a[child]) >= 0 {
        Covers(cmp, a[..], count, root, child);
        SiftDone(cmp, a[..], start, count, root);
        return;
      }
      SiftOne(cmp, a[..], start, count, root, child);
      SwapBag(a[..], root, child, count);
      Swap(a, root, child);
      root := child;
    }
  }

  /** The chosen child is the larger of at most two. */
  lemma Children(cmp: Order, s: seq<int>, n: nat, root: nat, child: nat)
    requires Consistent(cmp) && n <= |s| && child < n && (child == 2 * root + 1 || child == 2 * root + 2)
    requires child == 2 * root + 1 && child + 1 < n ==> cmp(s[child], s[child + 1]) >= 0
    requires child == 2 * root + 2 ==> cmp(s[child - 1], s[child]) < 0
    ensures Parent(child) == root && forall j :: 0 < j < n && Parent(j) == root ==> cmp(s[j], s[child]) <= 0
  {
    forall j | 0 < j < n && Parent(j) == root ensures cmp(s[j], s[child]) <= 0 {
      Total(cmp, s[child], s[j]);
      assert j == 2 * root + 1 || j == 2 * root + 2;
    }
  }

  lemma Covers(cmp: Order, s: seq<int>, n: nat, root: nat, child: nat)
    requires Consistent(cmp) && n <= |s| && root < n && child < n && cmp(s[root], s[child]) >= 0
    requires forall j :: 0 < j < n && Parent(j) == root ==> cmp(s[j], s[child]) <= 0
    ensures forall j :: 0 < j < n && Parent(j) == root ==> cmp(s[j], s[root]) <= 0
  {
    Total(cmp, s[root], s[child]);
    forall j | 0 < j < n && Parent(j) == root ensures cmp(s[j], s[root]) <= 0 { Trans(cmp, s[j], s[child], s[root]); }
  }

  /** swap_bytes. */
  method Swap(a: array<int>, i: nat, j: nat)
    requires i < a.Length && j < a.Length
    modifies a
    ensures a[..] == Swapped(old(a[..]), i, j)
  {
    a[i], a[j] := a[j], a[i];
  }

  /** The root of a heap is its largest element. */
  lemma {:induction false} RootLargest(cmp: Order, s: seq<int>, n: nat, i: nat)
    requires Consistent(cmp) && Heap(cmp, s, 0, n) && i < n
    ensures cmp(s[i], s[0]) <= 0
  {
    if i > 0 {
      RootLargest(cmp, s, n, Parent(i));
      Trans(cmp, s[i], s[Parent(i)], s[0]);
    } else {
      Total(cmp, s[0], s[0]);
    }
  }

  /** The part still to be sorted is not above the sorted rest. */
  ghost predicate Under(cmp: Order, s: seq<int>, n: nat) {
    n <= |s| && forall i, j :: 0 <= i < n <= j < |s| ==> cmp(s[i], s[j]) <= 0
  }

  /** qsort: a sorted arrangement of the same elements. */
  method HeapSort(a: array<int>, cmp: Order)
    requires Consistent(cmp)
    modifies a
    ensures Sorted(cmp, a[..], 0) && multiset(a[..]) == old(multiset(a[..]))
  {
    hide Consistent, Heap, Sorted, Under;
    var count := a.Length;
    Few(cmp, a[..]);
    if count < 2 { return; }
    var i := count / 2;
    Leaves(cmp, a[..], i);
    while i > 0
      invariant 0 <= i <= count / 2 && Heap(cmp, a[..], i, count) && multiset(a[..]) == old(multiset(a[..]))
    {
      i := i - 1;
      assert a[..count] == a[..];
      SiftDown(a, i, count, cmp);
      assert a[..count] == a[..];
    }
    var end := count - 1;
    NothingSorted(cmp, a[..]);
    while end > 0
      invariant 0 <= end < count && Heap(cmp, a[..], 0, end + 1) && multiset(a[..]) == old(multiset(a[..]))
      invariant Sorted(cmp, a[..], end + 1) && Under(cmp, a[..], end + 1)
    {
      ghost var s := a[..];
      SwapBag(s, 0, end, count);
      Swap(a, 0, end);
      MaxOut(cmp, s, end);
      ghost var t := a[..];
      SiftDown(a, 0, end, cmp);
      Settle(cmp, t, a[..], end);
      end := end - 1;
    }
    LastOne(cmp, a[..]);
  }

  lemma Few(cmp: Order, s: seq<int>)
    ensures |s| < 2 ==> Sorted(cmp, s, 0)
  {
  }

  lemma Leaves(cmp: Order, s: seq<int>, i: nat)
    requires i == |s| / 2
    ensures Heap(cmp, s, i, |s|)
  {
  }

  lemma NothingSorted(cmp: Order, s: seq<int>)
    ensures Sorted(cmp, s, |s|) && Under(cmp, s, |s|)
  {
  }

  /** After the largest element went to the end of the heap. */
  lemma MaxOut(cmp: Order, s: seq<int>, end: nat)
    requires Consistent(cmp) && 0 < end < |s| && Heap(cmp, s, 0, end + 1) && Sorted(cmp, s, end + 1)
    requires Under(cmp, s, end + 1)
    ensures var t := Swapped(s, 0, end); Heap(cmp, t, 1, end) && Sorted(cmp, t, end) && Under(cmp, t, end)
  {
    hide Consistent;
    var t := Swapped(s, 0, end);
    forall i | 0 <= i <= end ensures cmp(s[i], s[0]) <= 0 { RootLargest(cmp, s, end + 1, i); }
    forall i, j | 0 <= i < end <= j < |t| ensures cmp(t[i], t[j]) <= 0 {
      var k := if i == 0 then end else i;
      assert t[i] == s[k];
    }
    forall i, j | end <= i < j < |t| ensures cmp(t[i], t[j]) <= 0 {
      assert t[j] == s[j];
      if i == end { assert t[i] == s[0]; }
    }
  }

  /** Rearranging the front changes neither the sorted rest nor what lies under it. */
  lemma Settle(cmp: Order, s: seq<int>, t: seq<int>, n: nat)
    requires n <= |s| == |t| && multiset(t[..n]) == multiset(s[..n]) && t[n..] == s[n..]
    requires Sorted(cmp, s, n) && Under(cmp, s, n)
    ensures Sorted(cmp, t, n) && Under(cmp, t, n) && multiset(t) == multiset(s)
  {
    forall j | n <= j < |t| ensures t[j] == s[j] { assert t[n..][j - n] == s[n..][j - n]; }
    forall i | 0 <= i < n ensures exists k :: 0 <= k < n && s[k] == t[i] {
      assert t[..n][i] in multiset(t[..n]);
      assert t[i] in multiset(s[..n]);
      assert t[i] in s[..n];
    }
    assert t == t[..n] + t[n..] && s == s[..n] + s[n..];
  }

  lemma LastOne(cmp: Order, s: seq<int>)
    requires s != [] && Sorted(cmp, s, 1) && Under(cmp, s, 1)
    ensures Sorted(cmp, s, 0)
  {
  }
}
