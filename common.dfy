/**
 * Helpers shared by the soft heaps and the MST code (Common/Common.h):
 * selection of the k-th smallest element with a soft heap choosing the pivot,
 * membership tests on ranges, and the `LazyList` window over a list.
 */
module Common {

  // ---------------------------------------------------------------------------
  // Order statistics
  // ---------------------------------------------------------------------------

  /** How many elements of a are smaller than p. */
  function Below(a: seq<int>, p: int): (r: nat)
    ensures r <= |a|
  {
    if a == [] then 0 else (if a[0] < p then 1 else 0) + Below(a[1..], p)
  }

  /** How many elements of a are at most p. */
  function UpTo(a: seq<int>, p: int): (r: nat)
    ensures r <= |a|
  {
    if a == [] then 0 else (if a[0] <= p then 1 else 0) + UpTo(a[1..], p)
  }

  /** r is the k-th smallest element of a (from 0): an element of a with at most
      k elements below it and more than k at or below it. */
  predicate IsKth(a: seq<int>, k: nat, r: int) {
    r in a && Below(a, r) <= k < UpTo(a, r)
  }

  /** The elements of a smaller than p, in order. */
  function Lt(a: seq<int>, p: int): (r: seq<int>)
    ensures forall x :: x in r ==> x in a && x < p
  {
    if a == [] then []
    else if a[0] < p then [a[0]] + Lt(a[1..], p)
    else Lt(a[1..], p)
  }

  /** The copies of p in a. */
  function Eq(a: seq<int>, p: int): (r: seq<int>)
    ensures forall i :: 0 <= i < |r| ==> r[i] == p
    ensures p in a ==> |r| > 0
  {
    if a == [] then []
    else if a[0] == p then [a[0]] + Eq(a[1..], p)
    else
      assert p in a ==> p in a[1..] by {
        if p in a {
          var i :| 0 <= i < |a| && a[i] == p;
          assert a[1..][i - 1] == p;
        }
      }
      Eq(a[1..], p)
  }

  /** The elements of a greater than p, in order. */
  function Gt(a: seq<int>, p: int): (r: seq<int>)
    ensures forall x :: x in r ==> x in a && x > p
  {
    if a == [] then []
    else if a[0] > p then [a[0]] + Gt(a[1..], p)
    else Gt(a[1..], p)
  }

  /** What `SoftHeapSelect` recurses on to the right of the pivot: after the
      second partition the copies of p come first, and the first one, the pivot
      itself, is skipped. */
  function Right(a: seq<int>, p: int): (r: seq<int>)
    requires p in a
  {
    (Eq(a, p) + Gt(a, p))[1..]
  }

  lemma {:induction false} BelowAppend(x: seq<int>, y: seq<int>, q: int)
    ensures Below(x + y, q) == Below(x, q) + Below(y, q)
    ensures UpTo(x + y, q) == UpTo(x, q) + UpTo(y, q)
  {
    if x != [] {
      assert (x + y)[1..] == x[1..] + y;
      BelowAppend(x[1..], y, q);
    } else {
      assert x + y == y;
    }
  }

  /** Splitting a three ways around p splits every count. */
  lemma {:induction false} SplitCounts(a: seq<int>, p: int, q: int)
    ensures |a| == |Lt(a, p)| + |Eq(a, p)| + |Gt(a, p)|
    ensures Below(a, q) == Below(Lt(a, p), q) + Below(Eq(a, p), q) + Below(Gt(a, p), q)
    ensures UpTo(a, q) == UpTo(Lt(a, p), q) + UpTo(Eq(a, p), q) + UpTo(Gt(a, p), q)
  {
    if a != [] {
      SplitCounts(a[1..], p, q);
      var h := [a[0]];
      if a[0] < p {
        BelowAppend(h, Lt(a[1..], p), q);
      } else if a[0] == p {
        BelowAppend(h, Eq(a[1..], p), q);
      } else {
        BelowAppend(h, Gt(a[1..], p), q);
      }
    }
  }

  /** Counts of a sequence lying wholly on one side of q. */
  lemma {:induction false} CountSide(s: seq<int>, q: int)
    ensures (forall i :: 0 <= i < |s| ==> s[i] < q) ==> Below(s, q) == |s|
    ensures (forall i :: 0 <= i < |s| ==> s[i] <= q) ==> UpTo(s, q) == |s|
    ensures (forall i :: 0 <= i < |s| ==> s[i] >= q) ==> Below(s, q) == 0
    ensures (forall i :: 0 <= i < |s| ==> s[i] > q) ==> UpTo(s, q) == 0
  {
    if s != [] {
      CountSide(s[1..], q);
      assert forall i :: 1 <= i < |s| ==> s[1..][i - 1] == s[i];
    }
  }

  lemma CountSideMembers(s: seq<int>, q: int)
    ensures (forall x :: x in s ==> x < q) ==> Below(s, q) == |s| && UpTo(s, q) == |s|
    ensures (forall x :: x in s ==> x > q) ==> Below(s, q) == 0 && UpTo(s, q) == 0
  {
    assert forall i :: 0 <= i < |s| ==> s[i] in s;
    CountSide(s, q);
  }

  /** The answer on the left of the pivot is the answer for the whole input. */
  lemma SelectLeft(a: seq<int>, p: int, k: nat, r: int)
    requires IsKth(Lt(a, p), k, r)
    ensures IsKth(a, k, r)
  {
    var eq := Eq(a, p);
    SplitCounts(a, p, r);
    CountSideMembers(Lt(a, p), p);
    CountSide(eq, r);
    CountSideMembers(Gt(a, p), r);
    CountSideMembers(Lt(a, p), r + 1);
  }

  /** With exactly k elements below it, the pivot is the answer. */
  lemma SelectPivot(a: seq<int>, p: int, k: nat)
    requires p in a && k == |Lt(a, p)|
    ensures IsKth(a, k, p)
  {
    SplitCounts(a, p, p);
    CountSideMembers(Lt(a, p), p);
    CountSide(Eq(a, p), p);
    CountSideMembers(Gt(a, p), p);
  }

  /** The elements right of the pivot are elements of a, none below the pivot. */
  lemma RightMembers(a: seq<int>, p: int, x: int)
    requires p in a && x in Right(a, p)
    ensures x in a && x >= p
  {
    var eq, gt := Eq(a, p), Gt(a, p);
    assert Right(a, p) == eq[1..] + gt;
    if x in eq[1..] {
      var i :| 0 <= i < |eq[1..]| && eq[1..][i] == x;
      assert eq[i + 1] == x;
    }
  }

  /** Counting at or above the pivot: everything left of it, the pivot, and the
      count on the right. */
  lemma RightCounts(a: seq<int>, p: int, q: int)
    requires p in a && q >= p
    ensures Below(a, q) <= |Lt(a, p)| + 1 + Below(Right(a, p), q)
    ensures UpTo(a, q) == |Lt(a, p)| + 1 + UpTo(Right(a, p), q)
  {
    var lt, eq, gt := Lt(a, p), Eq(a, p), Gt(a, p);
    var rest := eq[1..];
    assert eq == [eq[0]] + rest;
    assert Right(a, p) == rest + gt;
    BelowAppend([eq[0]], rest, q);
    BelowAppend(rest, gt, q);
    SplitCounts(a, p, q);
    CountSideMembers(lt, q);
  }

  /** The answer on the right of the pivot, shifted back by the elements before
      it and the pivot itself, is the answer for the whole input. */
  lemma SelectRight(a: seq<int>, p: int, k: nat, r: int)
    requires p in a && k > |Lt(a, p)|
    requires IsKth(Right(a, p), k - |Lt(a, p)| - 1, r)
    ensures IsKth(a, k, r)
  {
    RightMembers(a, p, r);
    RightCounts(a, p, r);
  }

  /** Both recursive calls of `SoftHeapSelect` are on shorter inputs. */
  lemma SidesShorter(a: seq<int>, p: int)
    requires p in a
    ensures |Lt(a, p)| < |a| && |Right(a, p)| < |a|
    ensures |a| == |Lt(a, p)| + 1 + |Right(a, p)|
  {
    SplitCounts(a, p, p);
  }

  /** Every k below |a| has a k-th smallest element (quickselect around a[0]). */
  lemma {:induction false} KthExists(a: seq<int>, k: nat) returns (r: int)
    requires k < |a|
    ensures IsKth(a, k, r)
    decreases |a|
  {
    var p := a[0];
    SidesShorter(a, p);
    var n := |Lt(a, p)|;
    if k < n {
      r := KthExists(Lt(a, p), k);
      SelectLeft(a, p, k, r);
    } else if k == n {
      r := p;
      SelectPivot(a, p, k);
    } else {
      r := KthExists(Right(a, p), k - n - 1);
      SelectRight(a, p, k, r);
    }
  }

  /** Counting below x and up to y with x <= y. */
  lemma {:induction false} CountMonotone(a: seq<int>, x: int, y: int)
    requires x < y
    ensures UpTo(a, x) <= Below(a, y)
  {
    if a != [] {
      CountMonotone(a[1..], x, y);
    }
  }

  /** The k-th smallest element is unique. */
  lemma KthUnique(a: seq<int>, k: nat, r: int, r': int)
    requires IsKth(a, k, r) && IsKth(a, k, r')
    ensures r == r'
  {
    if r < r' {
      CountMonotone(a, r, r');
    } else if r' < r {
      CountMonotone(a, r', r);
    }
  }

  /** Taking out the element at position j takes out its share of the counts. */
  lemma BelowRemove(b: seq<int>, j: nat, q: int)
    requires j < |b|
    ensures Below(b, q) == Below(b[..j] + b[j + 1..], q) + (if b[j] < q then 1 else 0)
    ensures UpTo(b, q) == UpTo(b[..j] + b[j + 1..], q) + (if b[j] <= q then 1 else 0)
  {
    assert b == b[..j] + ([b[j]] + b[j + 1..]);
    BelowAppend(b[..j], [b[j]] + b[j + 1..], q);
    BelowAppend([b[j]], b[j + 1..], q);
    BelowAppend(b[..j], b[j + 1..], q);
  }

  /** Taking out matching elements keeps two sequences shuffles of each other. */
  lemma MultisetRemove(a: seq<int>, b: seq<int>, j: nat)
    requires multiset(a) == multiset(b) && a != [] && j < |b| && b[j] == a[0]
    ensures multiset(a[1..]) == multiset(b[..j] + b[j + 1..])
  {
    var c := b[..j] + b[j + 1..];
    assert b == b[..j] + [b[j]] + b[j + 1..];
    assert a == [a[0]] + a[1..];
    var x, y := multiset(b[..j]), multiset(b[j + 1..]);
    assert multiset(b) == x + multiset{b[j]} + y;
    assert multiset(c) == x + y;
    assert multiset(a) == multiset{a[0]} + multiset(a[1..]);
    forall v ensures multiset(a[1..])[v] == multiset(c)[v] {
      assert multiset(a)[v] == multiset(b)[v];
    }
  }

  /** The counts depend only on the multiset of elements. */
  lemma {:induction false} CountsByMultiset(a: seq<int>, b: seq<int>, q: int)
    requires multiset(a) == multiset(b)
    ensures Below(a, q) == Below(b, q) && UpTo(a, q) == UpTo(b, q)
    decreases |a|
  {
    if a == [] {
      assert |b| == |multiset(b)| == 0;
    } else {
      assert a[0] in multiset(b);
      var j :| 0 <= j < |b| && b[j] == a[0];
      MultisetRemove(a, b, j);
      CountsByMultiset(a[1..], b[..j] + b[j + 1..], q);
      BelowRemove(b, j, q);
    }
  }

  /** 0, 1, ..., n - 1. */
  function Iota(n: nat): (r: seq<int>)
    ensures |r| == n
  {
    seq(n, i => i)
  }

  lemma IotaCounts(n: nat, k: nat)
    requires k < n
    ensures Below(Iota(n), k) == k && UpTo(Iota(n), k) == k + 1
  {
    var s := Iota(n);
    BelowRemove(s, k, k);
    BelowAppend(s[..k], s[k + 1..], k);
    CountSide(s[..k], k);
    CountSide(s[k + 1..], k);
  }

  /** On a shuffle of 0..n-1 the k-th smallest element is k, so whatever pivots
      the heap supplies, `SoftHeapSelect(values, k)` returns k. */
  lemma SelectOnShuffledRange(a: seq<int>, n: nat, k: nat, r: int)
    requires multiset(a) == multiset(Iota(n)) && k < n
    requires IsKth(a, k, r)
    ensures r == k
  {
    IotaCounts(n, k);
    CountsByMultiset(a, Iota(n), k);
    assert Iota(n)[k] == k;
    assert k in multiset(a);
    assert IsKth(a, k, k);
    KthUnique(a, k, r, k);
  }

  // ---------------------------------------------------------------------------
  // SoftHeapSelect
  // ---------------------------------------------------------------------------

  /** The soft heap `SoftHeapSelect` is instantiated with.  Corruption lets a
      soft heap return elements out of order; all the selection relies on is
      that `DeleteMin` returns some element still in the heap, so that is all
      this heap promises. */
  class Heap {
    var items: seq<int>

    constructor ()
      ensures items == []
    {
      items := [];
    }

    method Insert(v: int)
      modifies this
      ensures multiset(items) == multiset(old(items)) + multiset{v}
    {
      items := items + [v];
    }

    method DeleteMin() returns (x: int)
      requires |items| > 0
      modifies this
      ensures x in multiset(old(items))
      ensures multiset(items) == multiset(old(items)) - multiset{x}
    {
      var i :| 0 <= i < |items|;
      x := items[i];
      assert items == items[..i] + [x] + items[i + 1..];
      items := items[..i] + items[i + 1..];
    }
  }

  /** The pivot as the source computes it: the largest of the values removed
      from the heap, starting from -1. */
  function PivotAsWritten(removed: seq<int>): int {
    if removed == [] then -1
    else
      var rest := PivotAsWritten(removed[..|removed| - 1]);
      if removed[|removed| - 1] >= rest then removed[|removed| - 1] else rest
  }

  /** When every removed value is below -1, the pivot -1 is not an input
      element: on [-5, -4, -3, 0] with k = 3, where an exact heap removes -5,
      exactly k elements lie below -1 and -1 is returned, though the answer is
      0. */
  lemma PivotAsWrittenMissesInput()
    ensures var a, k := [-5, -4, -3, 0], 3;
      && PivotAsWritten([-5]) == -1 && -1 !in a
      && |Lt(a, PivotAsWritten([-5]))| == k
      && !IsKth(a, k, -1) && IsKth(a, k, 0)
  {
    var a := [-5, -4, -3, 0];
    assert PivotAsWritten([-5]) == -1 by {
      assert [-5][..0] == [];
    }
    assert Lt(a, -1) == [-5, -4, -3] by {
      assert a[1..] == [-4, -3, 0];
      assert a[1..][1..] == [-3, 0];
      assert a[1..][1..][1..] == [0];
    }
    assert Below(a, 0) == 3 by {
      assert a[1..] == [-4, -3, 0];
      assert a[1..][1..] == [-3, 0];
      assert a[1..][1..][1..] == [0];
    }
    assert UpTo(a, 0) == 4 by {
      assert a[1..] == [-4, -3, 0];
      assert a[1..][1..] == [-3, 0];
      assert a[1..][1..][1..] == [0];
    }
  }

  /** Inserts every element of a into a new heap. */
  method LoadHeap(a: seq<int>) returns (heap: Heap)
    ensures fresh(heap) && multiset(heap.items) == multiset(a)
  {
    heap := new Heap();
    var i := 0;
    while i < |a|
      invariant i <= |a| && multiset(heap.items) == multiset(a[..i])
    {
      assert a[..i + 1] == a[..i] + [a[i]];
      heap.Insert(a[i]);
      i := i + 1;
    }
    assert a[..i] == a;
  }

  /** The state of `LargestRemoved`'s loop: the removed values and the heap's
      rest make up the initial contents, and pivot is the largest removed. */
  ghost predicate Took(removed: seq<int>, rest: multiset<int>, total: multiset<int>, pivot: int) {
    && multiset(removed) + rest == total
    && pivot in removed && forall j :: 0 <= j < |removed| ==> removed[j] <= pivot
  }

  /** Taking one more value from the heap, and keeping the larger pivot. */
  lemma TakeStep(removed: seq<int>, pivot: int, value: int, before: multiset<int>, after: multiset<int>, total: multiset<int>)
    requires Took(removed, before, total, pivot)
    requires value in before && after == before - multiset{value}
    ensures Took(removed + [value], after, total, if value >= pivot then value else pivot)
  {
    assert before == after + multiset{value};
  }

  /** Removes count elements from the heap and returns the largest of them;
      `removed` lists the values taken, in order. */
  method LargestRemoved(heap: Heap, count: nat) returns (pivot: int, ghost removed: seq<int>)
    requires 1 <= count <= |heap.items|
    modifies heap
    ensures |removed| == count
    ensures multiset(removed) + multiset(heap.items) == multiset(old(heap.items))
    ensures pivot in removed && forall x :: x in removed ==> x <= pivot
  {
    ghost var total := multiset(heap.items);
    pivot := heap.DeleteMin();
    assert total == multiset(heap.items) + multiset{pivot};
    removed := [pivot];
    var i := 1;
    while i < count
      invariant 1 <= i <= count && |removed| == i && |heap.items| == |old(heap.items)| - i
      invariant Took(removed, multiset(heap.items), total, pivot)
    {
      ghost var before := multiset(heap.items);
      var value := heap.DeleteMin();
      TakeStep(removed, pivot, value, before, multiset(heap.items), total);
      removed := removed + [value];
      if value >= pivot {
        pivot := value;
      }
      i := i + 1;
    }
  }

  /** `SoftHeapSelect`: the k-th smallest element of a.  Up to three elements
      are ordered directly (`nth_element`); otherwise every element goes into a
      soft heap, a third of them are removed, the largest removed value is the
      pivot, and the search continues on the side of the partition that holds
      position k.  The pivot starts from the first removed value rather than
      -1. */
  method SoftHeapSelect(a: seq<int>, k: nat) returns (r: int)
    requires k < |a|
    ensures IsKth(a, k, r)
    decreases |a|
  {
    if |a| <= 3 {
      ghost var w := KthExists(a, k);
      r :| r in a && IsKth(a, k, r);
      return;
    }
    var heap := LoadHeap(a);
    assert |heap.items| == |multiset(heap.items)| == |a|;
    ghost var loaded := heap.items;
    var pivot, removed := LargestRemoved(heap, |a| / 3);
    assert pivot in multiset(loaded) by {
      assert multiset(removed) <= multiset(loaded);
    }
    assert pivot in a;
    SidesShorter(a, pivot);
    var left := Lt(a, pivot);
    var partitionIndex := |left|;
    if partitionIndex == k {
      SelectPivot(a, pivot, k);
      return pivot;
    }
    if k < partitionIndex {
      r := SoftHeapSelect(left, k);
      SelectLeft(a, pivot, k, r);
      return;
    }
    r := SoftHeapSelect(Right(a, pivot), k - (partitionIndex + 1));
    SelectRight(a, pivot, k, r);
  }

  // ---------------------------------------------------------------------------
  // Ranges
  // ---------------------------------------------------------------------------

  /** `std::ranges::find`: the first position holding value, |rng| if none. */
  function Find<T(==)>(rng: seq<T>, value: T): (r: nat)
    ensures r <= |rng|
    ensures r < |rng| ==> rng[r] == value
    ensures forall i :: 0 <= i < r ==> rng[i] != value
  {
    if rng == [] then 0
    else if rng[0] == value then 0
    else 1 + Find(rng[1..], value)
  }

  /** `IsRangeContains`: find does not reach the end. */
  function IsRangeContains<T(==)>(rng: seq<T>, value: T): (r: bool)
    ensures r <==> value in rng
  {
    Find(rng, value) != |rng|
  }

  /** `IsInRange`: the membership test of a range, as a predicate. */
  function IsInRange<T(==, !new)>(rng: seq<T>): (f: T -> bool)
    ensures forall v :: f(v) <==> v in rng
  {
    v => IsRangeContains(rng, v)
  }

  // ---------------------------------------------------------------------------
  // LazyList
  // ---------------------------------------------------------------------------

  /** `LazyList`: the window [first, last) of a list, given by two iterators. */
  datatype LazyList<T> = LazyList(items: seq<T>, first: nat, last: nat) {
    ghost predicate Valid() {
      first <= last <= |items|
    }

    /** The elements the two iterators delimit. */
    function Window(): seq<T>
      requires Valid()
    {
      items[first..last]
    }

    /** `size()`: the distance from the first iterator to the second. */
    function Size(): (n: nat)
      requires Valid()
      ensures n == |Window()|
    {
      last - first
    }

    /** `front()`: the element at the first iterator. */
    function Front(): (x: T)
      requires Valid() && first < last
      ensures x == Window()[0]
    {
      items[first]
    }

    /** `back()`: the element just before the second iterator. */
    function Back(): (x: T)
      requires Valid() && first < last
      ensures x == Window()[|Window()| - 1]
    {
      items[last - 1]
    }

    /** `begin()`. */
    function Begin(): nat {
      first
    }

    /** `end()` as written: it returns the first iterator too. */
    function EndAsWritten(): nat {
      first
    }

    /** What a range-for over the list visits, from `begin()` to `end()`. */
    function Visited(): (s: seq<T>)
      requires Valid()
    {
      items[Begin()..EndAsWritten()]
    }

    /** `end()` as evidently intended: the second iterator. */
    function End(): nat {
      last
    }

    /** The traversal with the intended `end()`. */
    function VisitedIntended(): (s: seq<T>)
      requires Valid()
    {
      items[Begin()..End()]
    }
  }

  /** As written, iterating a `LazyList` visits nothing, whatever its size. */
  lemma LazyListVisitsNothing<T>(l: LazyList<T>)
    requires l.Valid()
    ensures l.Visited() == []
    ensures l.Size() > 0 ==> |l.Visited()| < l.Size()
  {
  }

  /** With `end()` returning the second iterator, the traversal visits exactly
      `size()` elements, from `front()` to `back()`. */
  lemma LazyListVisitsWindow<T>(l: LazyList<T>)
    requires l.Valid()
    ensures l.VisitedIntended() == l.Window() && |l.VisitedIntended()| == l.Size()
    ensures l.Size() > 0 ==> l.VisitedIntended()[0] == l.Front() && l.VisitedIntended()[l.Size() - 1] == l.Back()
  {
  }
}
