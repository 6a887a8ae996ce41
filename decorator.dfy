/**
 * The lazy-deletion decorator around a soft heap of edges
 * (MST/MSTSoftHeapDecorator.cpp).
 *
 * Every inserted edge travels in a shared pointer, an `Entry` object here,
 * that goes both into the inner heap and into the list of live items.
 * `DeleteAndReturnIf` takes entries out of the live list only; the heap keeps
 * them, and `DeleteMin` and `FindMin` discard such stale entries when they
 * surface.
 *
 * The inner heap is abstract: its contents are a sequence of entries, and the
 * entry it surfaces next is one of least edge weight (the first such).
 */
module Decorator {
  import opened Wrappers
  import opened GraphDetails

  /** The shared pointer an edge travels in; entries are told apart by identity. */
  class Entry {
    const edge: Edge

    constructor (edge: Edge)
      ensures this.edge == edge
    {
      this.edge := edge;
    }
  }

  /** Where the inner heap's minimum sits: an entry of least edge weight. */
  function MinIndex(heap: seq<Entry>): (i: nat)
    requires |heap| > 0
    ensures i < |heap|
    ensures forall j :: 0 <= j < |heap| ==> heap[i].edge.weight <= heap[j].edge.weight
  {
    if |heap| == 1 then 0
    else
      var m := MinIndex(heap[..|heap| - 1]);
      if heap[|heap| - 1].edge.weight < heap[m].edge.weight then |heap| - 1 else m
  }

  /** `std::list::remove`: every copy of e taken out, the rest in order. */
  function Without(s: seq<Entry>, e: Entry): (r: seq<Entry>)
    ensures |r| <= |s|
  {
    if s == [] then []
    else Without(s[..|s| - 1], e) + (if s[|s| - 1] == e then [] else [s[|s| - 1]])
  }

  /** Exactly the other entries survive a removal. */
  lemma {:induction false} WithoutMembers(s: seq<Entry>, e: Entry)
    ensures forall x :: x in Without(s, e) <==> x in s && x != e
    ensures e in s ==> |Without(s, e)| < |s|
  {
    if s != [] {
      var init := s[..|s| - 1];
      WithoutMembers(init, e);
      assert s == init + [s[|s| - 1]];
    }
  }

  /** The live entries `DeleteAndReturnIf` keeps: those whose edge fails `func`. */
  function Kept(s: seq<Entry>, func: Edge -> bool): (r: seq<Entry>)
    ensures |r| <= |s|
  {
    if s == [] then []
    else Kept(s[..|s| - 1], func) + (if func(s[|s| - 1].edge) then [] else [s[|s| - 1]])
  }

  /** The edges `DeleteAndReturnIf` returns: those that satisfy `func`, in order. */
  function Taken(s: seq<Entry>, func: Edge -> bool): (r: seq<Edge>)
    ensures |r| <= |s|
  {
    if s == [] then []
    else Taken(s[..|s| - 1], func) + (if func(s[|s| - 1].edge) then [s[|s| - 1].edge] else [])
  }

  function Edges(s: seq<Entry>): (r: seq<Edge>)
    ensures |r| == |s| && forall i :: 0 <= i < |s| ==> r[i] == s[i].edge
  {
    seq(|s|, i requires 0 <= i < |s| => s[i].edge)
  }

  /** Taken and kept split the live edges: every edge lands on exactly one side. */
  lemma {:induction false} TakenKeptPartition(s: seq<Entry>, func: Edge -> bool)
    ensures multiset(Taken(s, func)) + multiset(Edges(Kept(s, func))) == multiset(Edges(s))
  {
    if s != [] {
      var init, last := s[..|s| - 1], s[|s| - 1];
      TakenKeptPartition(init, func);
      assert Edges(s) == Edges(init) + [last.edge];
      if func(last.edge) {
        assert Edges(Kept(s, func)) == Edges(Kept(init, func));
      } else {
        assert Edges(Kept(s, func)) == Edges(Kept(init, func)) + [last.edge];
      }
    }
  }

  /** The side is the one `func` decides. */
  lemma {:induction false} TakenSatisfies(s: seq<Entry>, func: Edge -> bool)
    ensures forall x :: x in Taken(s, func) ==> func(x)
  {
    if s != [] {
      TakenSatisfies(s[..|s| - 1], func);
    }
  }

  lemma {:induction false} KeptMembers(s: seq<Entry>, func: Edge -> bool)
    ensures forall x :: x in Kept(s, func) ==> x in s && !func(x.edge)
  {
    if s != [] {
      var init := s[..|s| - 1];
      KeptMembers(init, func);
      assert s == init + [s[|s| - 1]];
    }
  }

  /** One step of the scan: the prefix grows by the next live entry. */
  lemma ScanStep(s: seq<Entry>, p: nat, func: Edge -> bool)
    requires p < |s|
    ensures Kept(s[..p + 1], func)
      == Kept(s[..p], func) + (if func(s[p].edge) then [] else [s[p]])
    ensures Taken(s[..p + 1], func)
      == Taken(s[..p], func) + (if func(s[p].edge) then [s[p].edge] else [])
  {
    assert s[..p + 1][..p] == s[..p];
  }

  /** The scan of `DeleteAndReturnIf` after p entries of s: the kept ones
      before position i of the list, the unvisited ones after. */
  predicate ScanState(s: seq<Entry>, func: Edge -> bool, p: nat, live: seq<Entry>, i: nat, result: seq<Edge>) {
    p <= |s| && i == |Kept(s[..p], func)|
    && live == Kept(s[..p], func) + s[p..]
    && result == Taken(s[..p], func)
  }

  /** One erase-or-advance step keeps the scan state. */
  lemma ScanAdvance(s: seq<Entry>, func: Edge -> bool, p: nat, live: seq<Entry>, i: nat, result: seq<Edge>)
    requires ScanState(s, func, p, live, i, result) && p < |s|
    ensures i < |live| && live[i] == s[p]
    ensures func(live[i].edge) ==>
      ScanState(s, func, p + 1, live[..i] + live[i + 1..], i, result + [live[i].edge])
    ensures !func(live[i].edge) ==> ScanState(s, func, p + 1, live, i + 1, result)
  {
    ScanStep(s, p, func);
    Unfold(Kept(s[..p], func), s, p);
  }

  /** The erase-or-advance scan of `DeleteAndReturnIf` over the live list. */
  method Scan(s: seq<Entry>, func: Edge -> bool) returns (live: seq<Entry>, result: seq<Edge>)
    ensures live == Kept(s, func) && result == Taken(s, func)
  {
    ghost var p := 0;
    live := s;
    result := [];
    var i := 0;
    while i < |live|
      invariant ScanState(s, func, p, live, i, result)
      invariant |live| - i == |s| - p
      decreases |live| - i
    {
      ScanAdvance(s, func, p, live, i, result);
      if func(live[i].edge) {
        result := result + [live[i].edge];
        live := live[..i] + live[i + 1..];
      } else {
        i := i + 1;
      }
      p := p + 1;
    }
    assert s[..p] == s;
  }

  class MSTSoftHeapDecorator {
    /** The inner soft heap's contents, live and stale entries alike. */
    var heap: seq<Entry>
    /** `m_items`: the live entries, in insertion order. */
    var items: seq<Entry>

    /** Every live entry is still in the inner heap. */
    ghost predicate Valid()
      reads this
    {
      forall e :: e in items ==> e in heap
    }

    ghost function LiveEdges(): seq<Edge>
      reads this
    {
      Edges(items)
    }

    constructor ()
      ensures Valid() && heap == [] && items == []
    {
      heap := [];
      items := [];
    }

    /** `Insert`: a fresh entry goes into the heap and to the end of the live list. */
    method Insert(edge: Edge)
      requires Valid()
      modifies this
      ensures Valid()
      ensures |items| == |old(items)| + 1 && items[..|old(items)|] == old(items)
      ensures fresh(items[|old(items)|]) && items[|old(items)|].edge == edge
      ensures heap == old(heap) + [items[|old(items)|]]
      ensures LiveEdges() == old(LiveEdges()) + [edge]
    {
      var entry := new Entry(edge);
      heap := heap + [entry];
      items := items + [entry];
      assert items[..|old(items)|] == old(items);
    }

    /** Takes the inner heap's minimum out: one entry of least weight. */
    method PopHeap() returns (e: Entry)
      requires |heap| > 0
      modifies this
      ensures items == old(items)
      ensures e == old(heap)[MinIndex(old(heap))]
      ensures e in old(heap) && forall x :: x in old(heap) ==> e.edge.weight <= x.edge.weight
      ensures forall x :: x in old(heap) && x != e ==> x in heap
      ensures forall x :: x in heap ==> x in old(heap)
      ensures |heap| == |old(heap)| - 1
    {
      var i := MinIndex(heap);
      e := heap[i];
      assert heap == heap[..i] + [e] + heap[i + 1..];
      heap := heap[..i] + heap[i + 1..];
    }

    /** `DeleteMin`: heap minima that are no longer live are discarded; the
        first live one is removed from the live list and returned.  With no
        live entry left the inner heap runs empty and throws. */
    method DeleteMin() returns (r: Result<Edge>)
      requires Valid()
      modifies this
      ensures Valid()
      ensures r.Failure? <==> old(items) == []
      ensures r.Failure? ==> r.error == OutOfRange("No available queues") && items == old(items)
      ensures r.Success? ==> exists e :: (e in old(items) && e.edge == r.value
        && items == Without(old(items), e)
        && forall x :: x in old(items) ==> e.edge.weight <= x.edge.weight)
    {
      while true
        invariant Valid() && items == old(items)
        decreases |heap|
      {
        LiveNeedsHeap(items, heap);
        if |heap| == 0 {
          return Failure(OutOfRange("No available queues"));
        }
        var e := PopHeap();
        if e in items {
          WithoutMembers(items, e);
          items := Without(items, e);
          return Success(e.edge);
        }
      }
    }

    /** `FindMin`: stale minima are popped until a live entry is on top, which
        stays; None when the heap runs empty. */
    method FindMin() returns (r: Option<Entry>)
      requires Valid()
      modifies this
      ensures Valid() && items == old(items)
      ensures forall x :: x in heap ==> x in old(heap)
      ensures r.None? <==> items == []
      ensures r.Some? ==> (r.value in items
        && forall x :: x in items ==> r.value.edge.weight <= x.edge.weight)
    {
      while |heap| > 0 && heap[MinIndex(heap)] !in items
        invariant Valid() && items == old(items)
        invariant forall x :: x in heap ==> x in old(heap)
        decreases |heap|
      {
        var _ := PopHeap();
      }
      LiveNeedsHeap(items, heap);
      if |heap| == 0 {
        return None;
      }
      return Some(heap[MinIndex(heap)]);
    }

    /** `DeleteAndReturnIf`: the live entries whose edge satisfies `func` leave
        the live list and are returned in list order; the rest stay in order.
        The inner heap is not touched. */
    method DeleteAndReturnIf(func: Edge -> bool) returns (result: seq<Edge>)
      requires Valid()
      modifies this
      ensures Valid() && heap == old(heap)
      ensures result == Taken(old(items), func)
      ensures items == Kept(old(items), func)
    {
      var kept;
      kept, result := Scan(items, func);
      KeptMembers(items, func);
      items := kept;
    }

    /** `Meld`: the other decorator's live entries move to the end of this
        one's list and its heap into this heap; the other is left empty. */
    method Meld(other: MSTSoftHeapDecorator)
      requires Valid() && other.Valid() && other != this
      modifies this, other
      ensures Valid() && other.Valid()
      ensures items == old(items) + old(other.items) && other.items == []
      ensures heap == old(heap) + old(other.heap) && other.heap == []
    {
      items := items + other.items;
      heap := heap + other.heap;
      other.items := [];
      other.heap := [];
    }
  }

  /** Live entries are in the heap, so the heap is empty only when they are. */
  lemma LiveNeedsHeap(items: seq<Entry>, heap: seq<Entry>)
    requires forall e :: e in items ==> e in heap
    ensures items != [] ==> heap != []
  {
    if items != [] {
      assert items[0] in heap;
    }
  }

  /** The scan's live list at position |done|: the entry there is s[p]. */
  lemma Unfold(done: seq<Entry>, s: seq<Entry>, p: nat)
    requires p < |s|
    ensures (done + s[p..])[|done|] == s[p]
    ensures (done + s[p..])[..|done|] + (done + s[p..])[|done| + 1..] == done + s[p + 1..]
    ensures done + s[p..] == (done + [s[p]]) + s[p + 1..]
  {
    assert s[p..] == [s[p]] + s[p + 1..];
  }
}
