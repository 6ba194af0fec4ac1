/**
 * The binary min-heap of libcpphaggle (Heap.cpp): an array of item pointers
 * ordered by each item's metric, with every stored item remembering its own
 * position in the array through its `index` field.
 */
module Heap {

  /** A heap item. Its metric orders the heap; the heap keeps `index` equal to the
   *  item's position in the array. */
  class HeapItem {
    const metric: int
    var index: nat

    constructor (metric: int)
      ensures this.metric == metric && index == 0
    {
      this.metric := metric;
      index := 0;
    }
  }

  predicate NonNull(s: seq<HeapItem?>)
  {
    forall k :: 0 <= k < |s| ==> s[k] != null
  }

  /** The min-heap property: no item has a smaller metric than its parent. */
  predicate IsMinHeap(s: seq<HeapItem?>)
  {
    NonNull(s) && forall p, c :: 0 <= p < c < |s| && (c == 2 * p + 1 || c == 2 * p + 2) ==> s[p].metric <= s[c].metric
  }

  /** The heap property everywhere except below position i, where the item at i
   *  may be larger than its children; those children are still no smaller than
   *  i's parent (the state `heapify(i)` repairs). */
  predicate HeapExceptAt(s: seq<HeapItem?>, i: nat)
  {
    NonNull(s)
    && (forall p, c :: 0 <= p < c < |s| && (c == 2 * p + 1 || c == 2 * p + 2) && p != i ==> s[p].metric <= s[c].metric)
    && (0 < i < |s| ==>
          forall c :: i < c < |s| && (c == 2 * i + 1 || c == 2 * i + 2) ==> s[(i - 1) / 2].metric <= s[c].metric)
  }

  /** Every stored item's back-pointer names its own position. */
  predicate IndexesMatch(s: seq<HeapItem?>)
    reads s
  {
    forall k :: 0 <= k < |s| ==> s[k] != null && s[k].index == k
  }

  /** In a min-heap the root carries a minimum metric. */
  lemma {:induction false} RootIsMinimum(s: seq<HeapItem?>, k: nat)
    requires IsMinHeap(s) && k < |s|
    ensures s[0].metric <= s[k].metric
    decreases k
  {
    if k > 0 {
      RootIsMinimum(s, (k - 1) / 2);
    }
  }

  /** x has a metric no larger than any item of s. */
  predicate MinimumOf(x: HeapItem, s: seq<HeapItem?>)
  {
    NonNull(s) && forall k :: 0 <= k < |s| ==> x.metric <= s[k].metric
  }

  lemma RootIsMinimumOf(s: seq<HeapItem?>)
    requires IsMinHeap(s) && |s| > 0
    ensures MinimumOf(s[0], s)
  {
    forall k | 0 <= k < |s|
      ensures s[0].metric <= s[k].metric
    {
      RootIsMinimum(s, k);
    }
  }

  /** Items whose back-pointers name distinct positions are distinct objects. */
  lemma IndexesMatchDistinct(s: seq<HeapItem?>, j: nat, k: nat)
    requires IndexesMatch(s) && j < |s| && k < |s| && j != k
    ensures s[j] != s[k]
  {
  }

  /** s with the entries at i and j exchanged. */
  function Swapped<T>(s: seq<T>, i: nat, j: nat): (r: seq<T>)
    requires i < |s| && j < |s|
    ensures |r| == |s| && r[i] == s[j] && r[j] == s[i]
    ensures forall k :: 0 <= k < |s| && k != i && k != j ==> r[k] == s[k]
    ensures multiset(r) == multiset(s)
  {
    s[i := s[j]][j := s[i]]
  }

  /** The position among i and its children holding the smallest metric,
   *  preferring i, then the left child, on ties (`heapify`'s choice). */
  function Smallest(s: seq<HeapItem?>, i: nat): (m: nat)
    requires NonNull(s) && i < |s|
    ensures m < |s| && (m == i || m == 2 * i + 1 || m == 2 * i + 2)
    ensures forall c :: i <= c < |s| && (c == i || c == 2 * i + 1 || c == 2 * i + 2) ==> s[m].metric <= s[c].metric
    ensures m != i ==> s[m].metric < s[i].metric
  {
    var l := 2 * i + 1;
    var r := l + 1;
    var m := if l < |s| && s[l].metric < s[i].metric then l else i;
    if r < |s| && s[r].metric < s[m].metric then r else m
  }

  /** The array `heapify(i)` leaves behind, as a function of the array it finds. */
  function SiftDown(s: seq<HeapItem?>, i: nat): (r: seq<HeapItem?>)
    requires NonNull(s)
    ensures |r| == |s| && NonNull(r)
    decreases |s| - i
  {
    if i >= |s| then s
    else
      var m := Smallest(s, i);
      if m == i then s else SiftDown(Swapped(s, i, m), m)
  }

  lemma {:induction false} SiftDownRestoresHeap(s: seq<HeapItem?>, i: nat)
    requires HeapExceptAt(s, i)
    ensures IsMinHeap(SiftDown(s, i))
    decreases |s| - i
  {
    if i >= |s| {
    } else {
      var m := Smallest(s, i);
      if m == i {
        HeapWhenNoSmallerChild(s, i);
      } else {
        SwapWithSmallerChild(s, i, m);
        SiftDownRestoresHeap(Swapped(s, i, m), m);
      }
    }
  }

  lemma {:induction false} SiftDownPermutes(s: seq<HeapItem?>, i: nat)
    requires NonNull(s)
    ensures multiset(SiftDown(s, i)) == multiset(s)
    decreases |s| - i
  {
    if i < |s| {
      var m := Smallest(s, i);
      if m != i {
        SiftDownPermutes(Swapped(s, i, m), m);
      }
    }
  }

  /** Sift-down step: swapping position i with its smaller child m moves the
   *  possible violation from i down to m. */
  lemma SwapWithSmallerChild(s: seq<HeapItem?>, i: nat, m: nat)
    requires HeapExceptAt(s, i) && i < m < |s| && (m == 2 * i + 1 || m == 2 * i + 2)
    requires s[m].metric < s[i].metric
    requires forall c :: i < c < |s| && (c == 2 * i + 1 || c == 2 * i + 2) ==> s[m].metric <= s[c].metric
    ensures HeapExceptAt(Swapped(s, i, m), m)
  {
    var t := Swapped(s, i, m);
    forall p, c | 0 <= p < c < |t| && (c == 2 * p + 1 || c == 2 * p + 2) && p != m
      ensures t[p].metric <= t[c].metric
    {
      if p == i {
      } else if c == i {
        assert s[(i - 1) / 2].metric <= s[m].metric;
      }
    }
  }

  /** Once position i is no larger than its children, the repair is complete. */
  lemma HeapWhenNoSmallerChild(s: seq<HeapItem?>, i: nat)
    requires HeapExceptAt(s, i) && i < |s|
    requires forall c :: i < c < |s| && (c == 2 * i + 1 || c == 2 * i + 2) ==> s[i].metric <= s[c].metric
    ensures IsMinHeap(s)
  {
  }

  /** The array the sift-up loop of `insert` produces: the hole at i climbs
   *  while its parent is larger than the new item, then receives the item. */
  function SiftUp(t: seq<HeapItem?>, i: nat, item: HeapItem): (r: seq<HeapItem?>)
    requires i < |t| && forall k :: 0 <= k < |t| && k != i ==> t[k] != null
    ensures |r| == |t| && NonNull(r)
    decreases i
  {
    if i > 0 && t[(i - 1) / 2].metric > item.metric then
      SiftUp(t[i := t[(i - 1) / 2]], (i - 1) / 2, item)
    else
      t[i := item]
  }

  /** The sift-up loop keeps the heap property around a hole at i that stands
   *  for the new item. */
  predicate HoleInvariant(t: seq<HeapItem?>, i: nat, item: HeapItem)
  {
    i < |t|
    && (forall k :: 0 <= k < |t| && k != i ==> t[k] != null)
    && (forall p, c :: 0 <= p < c < |t| && (c == 2 * p + 1 || c == 2 * p + 2) && c != i && p != i ==> t[p].metric <= t[c].metric)
    && (forall c :: i < c < |t| && (c == 2 * i + 1 || c == 2 * i + 2) ==> item.metric < t[c].metric)
    && (0 < i ==> forall c :: i < c < |t| && (c == 2 * i + 1 || c == 2 * i + 2) ==> t[(i - 1) / 2].metric <= t[c].metric)
  }

  lemma SiftUpStep(t: seq<HeapItem?>, i: nat, item: HeapItem)
    requires HoleInvariant(t, i, item) && 0 < i && t[(i - 1) / 2].metric > item.metric
    ensures HoleInvariant(t[i := t[(i - 1) / 2]], (i - 1) / 2, item)
  {
    SiftUpStepEdges(t, i, item);
    SiftUpStepHole(t, i, item);
    SiftUpStepAbove(t, i, item);
  }

  /** Edges away from the new hole stay ordered when the parent moves down. */
  lemma SiftUpStepEdges(t: seq<HeapItem?>, i: nat, item: HeapItem)
    requires HoleInvariant(t, i, item) && 0 < i && t[(i - 1) / 2].metric > item.metric
    ensures var q, u := (i - 1) / 2, t[i := t[(i - 1) / 2]];
      forall p, c :: 0 <= p < c < |u| && (c == 2 * p + 1 || c == 2 * p + 2) && c != q && p != q ==> u[p].metric <= u[c].metric
  {
    var q := (i - 1) / 2;
    var u := t[i := t[q]];
    forall p, c | 0 <= p < c < |u| && (c == 2 * p + 1 || c == 2 * p + 2) && c != q && p != q
      ensures u[p].metric <= u[c].metric
    {
      if p == i {
        assert t[(i - 1) / 2].metric <= t[c].metric;
      }
    }
  }

  /** The children of the new hole are larger than the item. */
  lemma SiftUpStepHole(t: seq<HeapItem?>, i: nat, item: HeapItem)
    requires HoleInvariant(t, i, item) && 0 < i && t[(i - 1) / 2].metric > item.metric
    ensures var q, u := (i - 1) / 2, t[i := t[(i - 1) / 2]];
      forall c :: q < c < |u| && (c == 2 * q + 1 || c == 2 * q + 2) ==> item.metric < u[c].metric
  {
    var q := (i - 1) / 2;
    var u := t[i := t[q]];
    forall c | q < c < |u| && (c == 2 * q + 1 || c == 2 * q + 2)
      ensures item.metric < u[c].metric
    {
      if c != i {
        assert t[q].metric <= t[c].metric;
      }
    }
  }

  /** The grandparent still bounds the children of the new hole. */
  lemma SiftUpStepAbove(t: seq<HeapItem?>, i: nat, item: HeapItem)
    requires HoleInvariant(t, i, item) && 0 < i && t[(i - 1) / 2].metric > item.metric
    ensures var q, u := (i - 1) / 2, t[i := t[(i - 1) / 2]];
      0 < q ==> forall c :: q < c < |u| && (c == 2 * q + 1 || c == 2 * q + 2) ==> u[(q - 1) / 2].metric <= u[c].metric
  {
    var q := (i - 1) / 2;
    var u := t[i := t[q]];
    if 0 < q {
      forall c | q < c < |u| && (c == 2 * q + 1 || c == 2 * q + 2)
        ensures u[(q - 1) / 2].metric <= u[c].metric
      {
        assert t[(q - 1) / 2].metric <= t[q].metric;
        if c != i {
          assert t[q].metric <= t[c].metric;
        }
      }
    }
  }

  /** One round of the sift-up loop: the parent moves down into the hole and the hole moves up. */
  lemma SiftUpAdvance(v: seq<HeapItem?>, i: nat, item: HeapItem)
    requires i < |v| && forall k :: 0 <= k < |v| && k != i ==> v[k] != null
    requires 0 < i && v[(i - 1) / 2].metric > item.metric
    ensures SiftUp(v, i, item) == SiftUp(v[i := v[(i - 1) / 2]][(i - 1) / 2 := item], (i - 1) / 2, item)
  {
    SiftUpIgnoresHole(v[i := v[(i - 1) / 2]], (i - 1) / 2, item, item);
  }

  lemma SiftUpIgnoresHole(t: seq<HeapItem?>, i: nat, item: HeapItem, x: HeapItem?)
    requires i < |t| && forall k :: 0 <= k < |t| && k != i ==> t[k] != null
    ensures SiftUp(t[i := x], i, item) == SiftUp(t, i, item)
  {
    if i > 0 && t[(i - 1) / 2].metric > item.metric {
      assert t[i := x][i := t[(i - 1) / 2]] == t[i := t[(i - 1) / 2]];
    } else {
      assert t[i := x][i := item] == t[i := item];
    }
  }

  lemma {:induction false} SiftUpRestoresHeap(t: seq<HeapItem?>, i: nat, item: HeapItem)
    requires HoleInvariant(t, i, item)
    ensures IsMinHeap(SiftUp(t, i, item))
    decreases i
  {
    if i > 0 && t[(i - 1) / 2].metric > item.metric {
      SiftUpStep(t, i, item);
      SiftUpRestoresHeap(t[i := t[(i - 1) / 2]], (i - 1) / 2, item);
    }
  }

  /** The array `extractFirst` hands to `heapify(0)`: the last item moved to the
   *  root and the array shortened by one. */
  function Lowered(s: seq<HeapItem?>): (r: seq<HeapItem?>)
    requires NonNull(s) && |s| > 0
    ensures |r| == |s| - 1 && NonNull(r)
    ensures |r| > 0 ==> r[0] == s[|s| - 1]
    ensures forall k :: 0 < k < |r| ==> r[k] == s[k]
    ensures forall k :: 0 <= k < |r| ==> r[k] in s
  {
    s[0 := s[|s| - 1]][..|s| - 1]
  }

  /** Removing the root of a min-heap and sinking the last item leaves a
   *  min-heap of the remaining items. */
  lemma ExtractKeepsHeap(s: seq<HeapItem?>)
    requires IsMinHeap(s) && |s| > 0
    ensures IsMinHeap(SiftDown(Lowered(s), 0))
    ensures multiset(SiftDown(Lowered(s), 0)) + multiset{s[0]} == multiset(s)
  {
    LoweredAlmostHeap(s);
    SiftDownRestoresHeap(Lowered(s), 0);
    SiftDownPermutes(Lowered(s), 0);
    LoweredPermutes(s);
  }

  lemma LoweredAlmostHeap(s: seq<HeapItem?>)
    requires IsMinHeap(s) && |s| > 0
    ensures HeapExceptAt(Lowered(s), 0)
  {
    var t := Lowered(s);
    forall p, c | 0 <= p < c < |t| && (c == 2 * p + 1 || c == 2 * p + 2) && p != 0
      ensures t[p].metric <= t[c].metric
    {
      assert t[p] == s[p] && t[c] == s[c];
    }
  }

  lemma LoweredPermutes(s: seq<HeapItem?>)
    requires NonNull(s) && |s| > 0
    ensures multiset(Lowered(s)) + multiset{s[0]} == multiset(s)
  {
    var n := |s|;
    if n == 1 {
      assert Lowered(s) == [] && s == [s[0]];
    } else {
      var middle := s[1..n - 1];
      assert Lowered(s) == [s[n - 1]] + middle;
      assert s == [s[0]] + middle + [s[n - 1]];
    }
  }

  /** Sifting a new item up from the end of a min-heap yields a min-heap holding
   *  the old items and the new one. */
  lemma InsertKeepsHeap(s: seq<HeapItem?>, item: HeapItem)
    requires IsMinHeap(s)
    ensures IsMinHeap(SiftUp(s + [item], |s|, item))
    ensures multiset(SiftUp(s + [item], |s|, item)) == multiset(s) + multiset{item}
  {
    assert HoleInvariant(s + [item], |s|, item);
    SiftUpRestoresHeap(s + [item], |s|, item);
    SiftUpPermutes(s + [item], |s|, item);
    assert (s + [item])[|s| := item] == s + [item];
  }

  lemma {:induction false} SiftUpPermutes(t: seq<HeapItem?>, i: nat, item: HeapItem)
    requires i < |t| && forall k :: 0 <= k < |t| && k != i ==> t[k] != null
    ensures multiset(SiftUp(t, i, item)) == multiset(t[i := item])
    decreases i
  {
    if i > 0 && t[(i - 1) / 2].metric > item.metric {
      var q := (i - 1) / 2;
      SiftUpPermutes(t[i := t[q]], q, item);
      assert t[i := t[q]][q := item] == Swapped(t[i := item], i, q);
    }
  }

  class Heap {
    var heap: array<HeapItem?>
    var size: nat
    var maxSize: nat
    /** The default growth step of `increaseSize()`; Heap.h is not part of this model. */
    const increaseStep: nat

    ghost predicate Valid()
      reads this, heap, heap[..]
    {
      maxSize == heap.Length && size <= heap.Length && increaseStep > 0
      && IsMinHeap(heap[..size]) && IndexesMatch(heap[..size])
    }

    predicate IsEmpty()
      reads this
    {
      size == 0
    }

    predicate IsFull()
      reads this
    {
      size >= maxSize
    }

    constructor (initialSize: nat, step: nat)
      requires step > 0
      ensures Valid() && fresh(heap)
      ensures size == 0 && maxSize == initialSize && increaseStep == step
    {
      heap := new HeapItem?[initialSize];
      size := 0;
      maxSize := initialSize;
      increaseStep := step;
    }

    /** Moves the stored items into a fresh array larger by `inc`; `allocOk`
     *  stands for the outcome of the allocation. */
    method IncreaseSize(inc: nat, allocOk: bool) returns (r: int)
      requires Valid()
      modifies this
      ensures Valid()
      ensures size == old(size) && heap[..size] == old(heap[..size])
      ensures !allocOk ==> r == -1 && heap == old(heap) && maxSize == old(maxSize)
      ensures allocOk ==> fresh(heap) && maxSize == old(maxSize) + inc && r == maxSize
    {
      if !allocOk {
        return -1;
      }
      var newHeap := new HeapItem?[maxSize + inc];
      forall k | 0 <= k < size {
        newHeap[k] := heap[k];
      }
      assert newHeap[..size] == heap[..size];
      heap := newHeap;
      maxSize := maxSize + inc;
      r := maxSize;
    }

    /** Exchanges the stored items at positions i and j and updates both
     *  back-pointers. */
    method Swap(i: nat, j: nat)
      requires size <= heap.Length && i < size && j < size && i != j
      requires IndexesMatch(heap[..size])
      modifies heap, heap[i], heap[j]
      ensures unchanged(this)
      ensures heap[..size] == Swapped(old(heap[..size]), i, j)
      ensures IndexesMatch(heap[..size])
    {
      ghost var s := heap[..size];
      IndexesMatchDistinct(s, i, j);
      forall k | 0 <= k < size && k != i && k != j
        ensures s[k] != s[i] && s[k] != s[j] && s[k].index == k
      {
        IndexesMatchDistinct(s, k, i);
        IndexesMatchDistinct(s, k, j);
      }
      var above, below := heap[i], heap[j];
      heap[i], heap[j] := below, above;
      above.index := j;
      below.index := i;
      assert heap[..size] == Swapped(s, i, j);
    }

    /** Sinks the item at position i until it is no larger than its children
     *  (`heapify`). */
    method Heapify(i: nat)
      requires size <= heap.Length && IndexesMatch(heap[..size])
      modifies heap, heap[..size]
      ensures unchanged(this) && IndexesMatch(heap[..size])
      ensures heap[..size] == SiftDown(old(heap[..size]), i)
      decreases size - i
    {
      var l := 2 * i + 1;
      var r := l + 1;
      var smallest := i;
      if l < size && heap[l].metric < heap[i].metric {
        smallest := l;
      }
      if r < size && heap[r].metric < heap[smallest].metric {
        smallest := r;
      }
      if smallest == i {
        return;
      }
      assert smallest == Smallest(heap[..size], i);
      Swap(i, smallest);
      Heapify(smallest);
    }

    /** Sift-up insertion (`insert`); when the array is full it first grows by
     *  the default step, and `allocOk` stands for the outcome of that allocation. */
    method Insert(item: HeapItem, allocOk: bool) returns (r: int)
      requires Valid() && item !in heap[..size]
      modifies this, heap, heap[..], item
      ensures Valid()
      ensures r == -1 <==> old(size) >= old(maxSize) && !allocOk
      ensures r == -1 ==> heap == old(heap) && size == old(size) && maxSize == old(maxSize)
      ensures r == -1 ==> heap[..] == old(heap[..])
      ensures r != -1 ==> r == 0 && size == old(size) + 1
      ensures r != -1 ==> heap[..size] == SiftUp(old(heap[..size]) + [item], old(size), item)
    {
      if IsFull() {
        var grown := IncreaseSize(increaseStep, allocOk);
        if grown < 0 {
          return -1;
        }
      }
      ghost var before := heap[..size];
      PlaceNew(item);
      InsertKeepsHeap(before, item);
      return 0;
    }

    /** The sift-up loop of `insert`, run once the array has room. */
    method PlaceNew(item: HeapItem)
      requires size < heap.Length && IndexesMatch(heap[..size]) && item !in heap[..size]
      modifies this`size, heap, heap[..size], item
      ensures heap == old(heap) && maxSize == old(maxSize) && size == old(size) + 1
      ensures IndexesMatch(heap[..size])
      ensures heap[..size] == SiftUp(old(heap[..size]) + [item], old(size), item)
    {
      var a := heap;
      var n := size;
      ghost var before := a[..n];
      assert a[..n + 1][n := item] == before + [item];
      var i := n;
      while i > 0 && a[(i - 1) / 2].metric > item.metric
        invariant 0 <= i <= n
        invariant forall k :: 0 <= k <= n && k != i ==> a[k] != null && a[k] in before && a[k].index == k
        invariant SiftUp(a[..n + 1][i := item], i, item) == SiftUp(before + [item], n, item)
        decreases i
      {
        var parent := (i - 1) / 2;
        ghost var view := a[..n + 1][i := item];
        SiftUpAdvance(view, i, item);
        a[i] := a[parent];
        a[i].index := i;
        assert a[..n + 1][parent := item] == view[i := view[parent]][parent := item];
        i := parent;
      }
      ghost var view := a[..n + 1][i := item];
      a[i] := item;
      item.index := i;
      size := n + 1;
      assert a[..size] == view;
      assert IndexesMatch(a[..size]);
    }

    /** Removes and returns an item of minimum metric, or null when the heap is
     *  empty (`extractFirst`): the last item moves to the root and sinks. */
    method ExtractFirst() returns (r: HeapItem?)
      requires Valid()
      modifies this`size, heap, heap[..size]
      ensures Valid() && heap == old(heap)
      ensures old(size) == 0 ==> r == null && size == 0
      ensures old(size) > 0 ==> r == old(heap[0]) && size == old(size) - 1
      ensures old(size) > 0 ==> heap[..size] == SiftDown(Lowered(old(heap[..size])), 0)
      ensures old(size) > 0 ==> r != null && MinimumOf(r, old(heap[..size]))
      ensures old(size) > 0 ==> multiset(heap[..size]) + multiset{r} == multiset(old(heap[..size]))
    {
      if IsEmpty() {
        return null;
      }
      ghost var s := heap[..size];
      RootIsMinimumOf(s);
      ExtractKeepsHeap(s);
      r := heap[0];
      RemoveRoot();
    }

    /** The part of `extractFirst` after the root has been taken: the last item
     *  moves to the root, the size drops, and `heapify(0)` repairs the order. */
    method RemoveRoot()
      requires 0 < size <= heap.Length && IndexesMatch(heap[..size])
      modifies this`size, heap, heap[..size]
      ensures heap == old(heap) && maxSize == old(maxSize) && size == old(size) - 1
      ensures IndexesMatch(heap[..size])
      ensures heap[..size] == SiftDown(Lowered(old(heap[..size])), 0)
    {
      ghost var s := heap[..size];
      forall k | 0 < k < size - 1
        ensures s[k] != s[size - 1]
      {
        IndexesMatchDistinct(s, k, size - 1);
      }
      size := size - 1;
      heap[0] := heap[size];
      heap[0].index := 0;
      assert heap[..size] == Lowered(s);
      Heapify(0);
    }
  }
}
