/** The binary heaps of the pool, stored in a slice and worked on in place by index. */
module Heaps {
  type Order<!T> = (T, T) -> bool

  /** less is a strict weak order: "not after" is total and transitive. */
  ghost predicate Ordered<T(!new)>(less: Order<T>) {
    && (forall a, b :: less(a, b) ==> !less(b, a))
    && (forall a, b, c :: !less(b, a) && !less(c, b) ==> !less(c, a))
  }

  function Parent(i: nat): nat {
    if i == 0 then 0 else (i - 1) / 2
  }

  /** Every entry is not before its parent. */
  ghost predicate IsHeap<T>(h: seq<T>, less: Order<T>) {
    forall i :: 0 < i < |h| ==> !less(h[i], h[Parent(i)])
  }

  /** A heap but for entry j, which need not be ordered with its parent and its children; its
      children are not before its parent. */
  ghost predicate HeapButAt<T>(h: seq<T>, less: Order<T>, j: nat) {
    && (forall i :: 0 < i < |h| && i != j && Parent(i) != j ==> !less(h[i], h[Parent(i)]))
    && (forall i :: 0 < i < |h| && Parent(i) == j && j > 0 ==> !less(h[i], h[Parent(j)]))
  }

  /** Entry j is not after any of its children. */
  ghost predicate ChildrenOk<T>(h: seq<T>, less: Order<T>, j: nat) {
    forall i :: 0 < i < |h| && Parent(i) == j < |h| ==> !less(h[i], h[j])
  }

  ghost predicate ParentOk<T>(h: seq<T>, less: Order<T>, j: nat) {
    0 < j < |h| ==> !less(h[j], h[Parent(j)])
  }

  ghost predicate AllBefore<T>(h: seq<T>, n: nat, less: Order<T>, bound: T)
    requires n <= |h|
  {
    forall k :: 0 <= k < n ==> less(h[k], bound)
  }

  function Swapped<T>(h: seq<T>, i: nat, j: nat): (r: seq<T>)
    requires i < |h| && j < |h|
    ensures |r| == |h| && multiset(r) == multiset(h)
  {
    h[i := h[j]][j := h[i]]
  }

  /** The top of a heap is before or level with every entry. */
  lemma {:induction false} TopIsLeast<T(!new)>(h: seq<T>, less: Order<T>, i: nat)
    requires Ordered(less) && IsHeap(h, less) && i < |h|
    ensures !less(h[i], h[0])
    decreases i
  {
    if i > 0 {
      TopIsLeast(h, less, Parent(i));
    }
  }

  lemma SwapUp<T(!new)>(h: seq<T>, less: Order<T>, j: nat)
    requires Ordered(less) && HeapButAt(h, less, j) && ChildrenOk(h, less, j) && 0 < j < |h| && less(h[j], h[Parent(j)])
    ensures HeapButAt(Swapped(h, Parent(j), j), less, Parent(j))
            && ChildrenOk(Swapped(h, Parent(j), j), less, Parent(j))
  {
  }

  lemma SwapUpKeepsBound<T(!new)>(h: seq<T>, less: Order<T>, j: nat, n: nat, bound: T)
    requires Ordered(less) && 0 < j < |h| && less(h[j], h[Parent(j)]) && j <= n <= |h| && AllBefore(h, n, less, bound)
    ensures AllBefore(Swapped(h, Parent(j), j), n, less, bound)
  {
  }

  /** Sift an entry up. Entries before a bound stay in front of the starting index. */
  method Up<T(!new)>(h: seq<T>, less: Order<T>, start: nat, ghost bound: T) returns (r: seq<T>)
    requires Ordered(less) && start < |h| && HeapButAt(h, less, start) && ChildrenOk(h, less, start)
    ensures |r| == |h| && multiset(r) == multiset(h) && IsHeap(r, less)
    ensures AllBefore(h, start, less, bound) ==> AllBefore(r, start, less, bound)
  {
    var j := start;
    r := h;
    while j > 0 && less(r[j], r[Parent(j)])
      invariant 0 <= j <= start && |r| == |h| && multiset(r) == multiset(h)
      invariant HeapButAt(r, less, j) && ChildrenOk(r, less, j)
      invariant AllBefore(h, start, less, bound) ==> AllBefore(r, start, less, bound)
    {
      hide AllBefore, HeapButAt, ChildrenOk, Ordered, Swapped;
      SwapUp(r, less, j);
      if AllBefore(h, start, less, bound) {
        SwapUpKeepsBound(r, less, j, start, bound);
      }
      r := Swapped(r, Parent(j), j);
      j := Parent(j);
    }
  }

  lemma SwapDown<T(!new)>(h: seq<T>, less: Order<T>, i: nat, j: nat)
    requires Ordered(less) && HeapButAt(h, less, i) && i < j < |h| && Parent(j) == i && less(h[j], h[i])
    requires forall k :: 0 < k < |h| && Parent(k) == i ==> !less(h[k], h[j])
    ensures HeapButAt(Swapped(h, i, j), less, j) && ParentOk(Swapped(h, i, j), less, j)
  {
  }

  lemma OrderedAt<T>(h: seq<T>, less: Order<T>, i: nat)
    requires HeapButAt(h, less, i) && ParentOk(h, less, i) && ChildrenOk(h, less, i)
    ensures IsHeap(h, less)
  {
  }

  /** The child to swap with: the second one only if it is strictly before the first. */
  method LeastChild<T(!new)>(h: seq<T>, less: Order<T>, i: nat) returns (j: nat)
    requires Ordered(less) && 2 * i + 1 < |h|
    ensures i < j < |h| && Parent(j) == i
    ensures forall k :: 0 < k < |h| && Parent(k) == i ==> !less(h[k], h[j])
  {
    j := 2 * i + 1;
    if j + 1 < |h| && less(h[j + 1], h[j]) {
      j := j + 1;
    }
    assert forall k :: 0 < k < |h| && Parent(k) == i ==> k == 2 * i + 1 || k == 2 * i + 2;
  }

  lemma ChildrenDecided<T(!new)>(h: seq<T>, less: Order<T>, i: nat, j: nat)
    requires Ordered(less) && i < |h| && j < |h| && !less(h[j], h[i])
    requires forall k :: 0 < k < |h| && Parent(k) == i ==> !less(h[k], h[j])
    ensures ChildrenOk(h, less, i)
  {
  }

  lemma NoChildren<T>(h: seq<T>, less: Order<T>, i: nat)
    requires |h| <= 2 * i + 1
    ensures ChildrenOk(h, less, i)
  {
  }

  /** Sift an entry down. Nothing in front of it moves. */
  method Down<T(!new)>(h: seq<T>, less: Order<T>, start: nat) returns (r: seq<T>, moved: bool)
    requires Ordered(less) && start < |h| && HeapButAt(h, less, start)
    ensures |r| == |h| && multiset(r) == multiset(h) && r[..start] == h[..start]
    ensures moved ==> IsHeap(r, less)
    ensures !moved ==> r == h && ChildrenOk(h, less, start)
  {
    hide HeapButAt, Ordered, ParentOk, IsHeap, ChildrenOk;
    var i := start;
    r := h;
    while 2 * i + 1 < |r|
      invariant start <= i < |r| && |r| == |h| && multiset(r) == multiset(h) && r[..start] == h[..start]
      invariant HeapButAt(r, less, i)
      invariant i == start ==> r == h
      invariant i > start ==> ParentOk(r, less, i)
    {
      var j := LeastChild(r, less, i);
      if !less(r[j], r[i]) {
        ChildrenDecided(r, less, i, j);
        break;
      }
      SwapDown(r, less, i, j);
      r := Swapped(r, i, j);
      i := j;
    }
    if 2 * i + 1 >= |r| {
      NoChildren(r, less, i);
    }
    moved := i > start;
    if moved {
      OrderedAt(r, less, i);
    }
  }

  lemma AppendedBut<T>(h: seq<T>, less: Order<T>, x: T)
    requires IsHeap(h, less)
    ensures HeapButAt(h + [x], less, |h|) && ChildrenOk(h + [x], less, |h|)
  {
  }

  method Push<T(!new)>(h: seq<T>, less: Order<T>, x: T) returns (r: seq<T>)
    requires Ordered(less) && IsHeap(h, less)
    ensures IsHeap(r, less) && multiset(r) == multiset(h) + multiset{x} && |r| == |h| + 1
  {
    AppendedBut(h, less, x);
    r := Up(h + [x], less, |h|, x);
  }

  /** Swap entry i with the last one and cut the last one off. */
  function Cut<T>(h: seq<T>, i: nat): (r: seq<T>)
    requires i < |h| - 1
    ensures multiset(r) + multiset{h[i]} == multiset(h)
  {
    assert h == h[..|h| - 1] + [h[|h| - 1]];
    assert h[..|h| - 1][i] == h[i];
    h[..|h| - 1][i := h[|h| - 1]]
  }

  lemma CutIsHeapBut<T(!new)>(h: seq<T>, less: Order<T>, i: nat)
    requires Ordered(less) && IsHeap(h, less) && i < |h| - 1
    ensures HeapButAt(Cut(h, i), less, i)
  {
  }

  /** Remove the entry at an index. Entries before a bound stay in front of that index, also when
      the entry that takes its place sifts up past it. */
  method Remove<T(!new)>(h: seq<T>, less: Order<T>, i: nat, ghost bound: T) returns (r: seq<T>)
    requires Ordered(less) && IsHeap(h, less) && i < |h|
    ensures IsHeap(r, less) && multiset(r) + multiset{h[i]} == multiset(h) && |r| == |h| - 1
    ensures AllBefore(h, i, less, bound) ==> AllBefore(r, i, less, bound)
  {
    hide Ordered, HeapButAt, ChildrenOk;
    if i == |h| - 1 {
      r := h[..i];
      assert h == r + [h[i]];
      return;
    }
    CutIsHeapBut(h, less, i);
    var cut := Cut(h, i);
    var moved;
    r, moved := Down(cut, less, i);
    assert AllBefore(h, i, less, bound) ==> AllBefore(cut, i, less, bound);
    if !moved {
      r := Up(r, less, i, bound);
    } else {
      assert forall k :: 0 <= k < i ==> r[k] == r[..i][k] == cut[..i][k] == h[k];
    }
  }

  /** Remove the top. */
  method Pop<T(!new)>(h: seq<T>, less: Order<T>) returns (x: T, r: seq<T>)
    requires Ordered(less) && IsHeap(h, less) && h != []
    ensures x == h[0] && IsHeap(r, less) && multiset(r) + multiset{x} == multiset(h) && |r| == |h| - 1
    ensures forall y :: y in r ==> !less(y, x)
  {
    x := h[0];
    if |h| == 1 {
      r := [];
      assert h == [x];
      return;
    }
    CutIsHeapBut(h, less, 0);
    var moved;
    r, moved := Down(Cut(h, 0), less, 0);
    if !moved {
      OrderedAt(r, less, 0);
    }
    forall y | y in r ensures !less(y, x) {
      assert y in multiset(r) && y in multiset(h);
      var k :| 0 <= k < |h| && h[k] == y;
      TopIsLeast(h, less, k);
    }
  }
}
