/**
 * A node of the hierarchy Chazelle's MST algorithm builds
 * (MST/MSTTreeSubgraph.cpp): either a leaf holding one vertex, or a node
 * whose children are joined by chain-link edges.  Each node at level k owns
 * k + 1 decorated soft heaps (the cross heaps H(i, k) for i < k, then H(k)),
 * and a stack of the minimum links to the later nodes of the active path.
 *
 * Children are shared pointers, so they are objects here; `Repr` is the set
 * of nodes of the subtree, which lets the recursive `Vertices` terminate.
 */
module TreeSubgraph {
  import opened Wrappers
  import opened GraphDetails
  import opened Decorator

  /** One entry of `m_childs`: the chain-link edge (none for the first child)
      and the child. */
  datatype Link = Link(edge: Option<nat>, child: SubGraph)

  /** The edges the inner heaps of the last n heaps hold, the last heap first. */
  ghost function Extracted(hs: seq<MSTSoftHeapDecorator>, n: nat): seq<Edge>
    requires n <= |hs|
    reads hs
  {
    if n == 0 then [] else Extracted(hs, n - 1) + Edges(hs[|hs| - n].heap)
  }

  /** The edges `DeleteAndReturnIf` collects from the heaps' live lists, heap by heap. */
  function TakenAll(lists: seq<seq<Entry>>, func: Edge -> bool): (r: seq<Edge>)
    ensures forall x :: x in r ==> func(x)
  {
    if lists == [] then []
    else
      TakenSatisfies(lists[|lists| - 1], func);
      TakenAll(lists[..|lists| - 1], func) + Taken(lists[|lists| - 1], func)
  }

  /** The live lists of a row of heaps. */
  ghost function LiveLists(hs: seq<MSTSoftHeapDecorator>): (r: seq<seq<Entry>>)
    reads hs
    ensures |r| == |hs| && forall i :: 0 <= i < |hs| ==> r[i] == hs[i].items
  {
    if hs == [] then [] else LiveLists(hs[..|hs| - 1]) + [hs[|hs| - 1].items]
  }

  /** Distinct heaps, each keeping the decorator's invariant. */
  ghost predicate HeapRow(hs: seq<MSTSoftHeapDecorator>)
    reads hs
  {
    (forall i, j :: 0 <= i < j < |hs| ==> hs[i] != hs[j])
    && forall i :: 0 <= i < |hs| ==> hs[i].Valid()
  }

  /** n new heaps with nothing in them. */
  method NewHeaps(n: nat) returns (hs: seq<MSTSoftHeapDecorator>)
    ensures |hs| == n && HeapRow(hs)
    ensures forall i :: 0 <= i < n ==> fresh(hs[i]) && hs[i].items == [] && hs[i].heap == []
  {
    hs := [];
    while |hs| < n
      invariant |hs| <= n && HeapRow(hs)
      invariant forall i :: 0 <= i < |hs| ==> fresh(hs[i]) && hs[i].items == [] && hs[i].heap == []
    {
      var h := new MSTSoftHeapDecorator();
      hs := hs + [h];
    }
  }

  class SubGraph {
    const vertex: Option<nat>
    /** `m_level_in_tree`, the k of the paper. */
    const level: nat
    const targetSize: nat
    const r: nat
    var childs: seq<Link>
    var heaps: seq<MSTSoftHeapDecorator>
    /** `m_min_links_to_next_nodes_in_active_path`. */
    var minLinks: seq<Edge>
    /** The nodes of this subtree. */
    ghost var Repr: set<SubGraph>

    /** The children form a tree below this node. */
    ghost predicate Tree()
      reads this, Repr
      decreases Repr
    {
      this in Repr
      && forall k :: 0 <= k < |childs| ==>
        var c := childs[k].child;
        c in Repr && c.Repr <= Repr && this !in c.Repr && c.Tree()
    }

    /** The node owns level + 1 distinct heaps. */
    ghost predicate HeapsValid()
      reads this, heaps
    {
      |heaps| == level + 1 && HeapRow(heaps)
    }

    /** The vertices below this node: the leaf's own vertex, or the children's
        vertices in child order. */
    ghost function Vertices(): seq<nat>
      requires Tree()
      reads this, Repr
      decreases Repr, 1
    {
      if vertex.Some? then [vertex.value] else ChildVertices(|childs|)
    }

    /** The vertices of the first k children. */
    ghost function ChildVertices(k: nat): seq<nat>
      requires Tree() && k <= |childs|
      reads this, Repr
      decreases Repr, 0, k
    {
      if k == 0 then []
      else
        var c := childs[k - 1].child;
        ChildVertices(k - 1) + c.Vertices()
    }

    /** The leaf constructor: one vertex, no children, level + 1 empty heaps. */
    constructor Leaf(vertex: nat, level: nat, targetSize: nat, r: nat)
      ensures this.vertex == Some(vertex) && this.level == level
      ensures this.targetSize == targetSize && this.r == r
      ensures childs == [] && minLinks == [] && Tree() && HeapsValid()
      ensures forall i :: 0 <= i < |heaps| ==> fresh(heaps[i]) && heaps[i].items == []
      ensures Vertices() == [vertex] && IsMeetTargetSize()
    {
      this.vertex := Some(vertex);
      this.level := level;
      this.targetSize := targetSize;
      this.r := r;
      childs := [];
      minLinks := [];
      Repr := {this};
      new;
      heaps := NewHeaps(level + 1);
    }

    /** The constructor above a child: one level up, the child as the only
        entry, with no chain-link edge. */
    constructor Above(child: SubGraph, targetSize: nat, r: nat)
      requires child.Tree() && child.level >= 1
      ensures vertex == None && level == child.level - 1
      ensures this.targetSize == targetSize && this.r == r
      ensures childs == [Link(None, child)] && minLinks == [] && Tree() && HeapsValid()
      ensures forall i :: 0 <= i < |heaps| ==> fresh(heaps[i]) && heaps[i].items == []
      ensures Vertices() == child.Vertices()
      ensures IsMeetTargetSize() <==> targetSize <= 1
    {
      vertex := None;
      level := child.level - 1;
      this.targetSize := targetSize;
      this.r := r;
      childs := [Link(None, child)];
      minLinks := [];
      Repr := {this} + child.Repr;
      new;
      heaps := NewHeaps(level + 1);
      assert Tree();
      assert ChildVertices(1) == ChildVertices(0) + child.Vertices();
    }

    /** `IsMeetTargetSize`: a leaf always meets it, another node once it has
        targetSize children. */
    predicate IsMeetTargetSize(): (r: bool)
      reads this
      ensures vertex.Some? ==> r
      ensures vertex.None? ==> (r <==> |childs| >= targetSize)
    {
      vertex.Some? || |childs| >= targetSize
    }

    /** `GetVertices`, by recursion into the children. */
    method GetVertices() returns (result: seq<nat>)
      requires Tree()
      ensures result == Vertices()
      decreases Repr
    {
      if vertex.Some? {
        return [vertex.value];
      }
      result := [];
      var k := 0;
      while k < |childs|
        invariant k <= |childs| && result == ChildVertices(k)
      {
        var c := childs[k].child;
        var part := c.GetVertices();
        result := result + part;
        k := k + 1;
      }
    }

    /** `PushToHeap`: the edge goes into H(level), the node's own heap. */
    method PushToHeap(edge: Edge)
      requires HeapsValid()
      modifies heaps[level]
      ensures HeapsValid()
      ensures heaps[level].LiveEdges() == old(heaps[level].LiveEdges()) + [edge]
      ensures |heaps[level].heap| == |old(heaps[level].heap)| + 1
      ensures heaps[level].heap[..|old(heaps[level].heap)|] == old(heaps[level].heap)
      ensures heaps[level].heap[|old(heaps[level].heap)|].edge == edge
    {
      heaps[level].Insert(edge);
    }

    /** `MeldHeapsFrom`: every cross heap H(i, .) with i below this level takes
        in the other node's heap i; the other's heaps are left empty. */
    method MeldHeapsFrom(other: SubGraph)
      requires HeapsValid() && other.HeapsValid() && level <= other.level + 1
      requires forall i, j :: 0 <= i < |heaps| && 0 <= j < |other.heaps| ==> heaps[i] != other.heaps[j]
      modifies set i | 0 <= i < level :: heaps[i], set i | 0 <= i < level :: other.heaps[i]
      ensures HeapsValid() && other.HeapsValid()
      ensures forall i :: 0 <= i < level ==>
        heaps[i].items == old(heaps[i].items) + old(other.heaps[i].items) && other.heaps[i].items == []
      ensures forall i :: 0 <= i < level ==>
        heaps[i].heap == old(heaps[i].heap) + old(other.heaps[i].heap) && other.heaps[i].heap == []
    {
      var i := 0;
      while i < level
        invariant i <= level && HeapRow(heaps) && HeapRow(other.heaps)
        invariant forall j :: 0 <= j < i ==>
          heaps[j].items == old(heaps[j].items) + old(other.heaps[j].items) && other.heaps[j].items == []
        invariant forall j :: i <= j < level ==>
          heaps[j].items == old(heaps[j].items) && other.heaps[j].items == old(other.heaps[j].items)
        invariant forall j :: 0 <= j < i ==>
          heaps[j].heap == old(heaps[j].heap) + old(other.heaps[j].heap) && other.heaps[j].heap == []
        invariant forall j :: i <= j < level ==>
          heaps[j].heap == old(heaps[j].heap) && other.heaps[j].heap == old(other.heaps[j].heap)
      {
        MeldAt(other, i);
        i := i + 1;
      }
    }

    /** Heap i of the other node melded into heap i of this one. */
    method MeldAt(other: SubGraph, i: nat)
      requires HeapRow(heaps) && HeapRow(other.heaps) && i < |heaps| && i < |other.heaps|
      requires forall a, b :: 0 <= a < |heaps| && 0 <= b < |other.heaps| ==> heaps[a] != other.heaps[b]
      modifies heaps[i], other.heaps[i]
      ensures HeapRow(heaps) && HeapRow(other.heaps)
      ensures heaps[i].items == old(heaps[i].items) + old(other.heaps[i].items) && other.heaps[i].items == []
      ensures forall j :: 0 <= j < |heaps| && j != i ==> heaps[j].items == old(heaps[j].items)
      ensures forall j :: 0 <= j < |other.heaps| && j != i ==> other.heaps[j].items == old(other.heaps[j].items)
      ensures heaps[i].heap == old(heaps[i].heap) + old(other.heaps[i].heap) && other.heaps[i].heap == []
      ensures forall j :: 0 <= j < |heaps| && j != i ==> heaps[j].heap == old(heaps[j].heap)
      ensures forall j :: 0 <= j < |other.heaps| && j != i ==> other.heaps[j].heap == old(other.heaps[j].heap)
    {
      heaps[i].Meld(other.heaps[i]);
    }

    /** `AddToMinLinks` pushes on the min-link stack. */
    method AddToMinLinks(edge: Edge)
      modifies this
      ensures minLinks == old(minLinks) + [edge]
      ensures childs == old(childs) && heaps == old(heaps) && Repr == old(Repr)
    {
      minLinks := minLinks + [edge];
    }

    /** `PopMinLink` pops the min-link stack, and does nothing when it is empty. */
    method PopMinLink()
      modifies this
      ensures old(minLinks) == [] ==> minLinks == []
      ensures old(minLinks) != [] ==> minLinks + [old(minLinks)[|old(minLinks)| - 1]] == old(minLinks)
      ensures childs == old(childs) && heaps == old(heaps) && Repr == old(Repr)
    {
      if minLinks != [] {
        minLinks := minLinks[..|minLinks| - 1];
      }
    }

    /** `ExtractItems`: the contents of the last min(2, level) heaps, the last
        heap first, and then the node starts over with level + 1 empty heaps. */
    method ExtractItems() returns (data: seq<Edge>)
      requires HeapsValid()
      modifies this
      ensures data == Extracted(old(heaps), if level < 2 then level else 2)
      ensures HeapsValid() && childs == old(childs) && minLinks == old(minLinks) && Repr == old(Repr)
      ensures forall i :: 0 <= i < |heaps| ==> fresh(heaps[i]) && heaps[i].items == []
    {
      var n := if level < 2 then level else 2;
      data := [];
      var t := 0;
      while t < n
        invariant t <= n && data == Extracted(heaps, t) && heaps == old(heaps)
      {
        data := data + Edges(heaps[|heaps| - 1 - t].heap);
        t := t + 1;
      }
      heaps := NewHeaps(level + 1);
    }

    /** `AddChild` appends a child below the given chain-link edge. */
    method AddChild(edge: nat, child: SubGraph)
      requires Tree() && child.Tree() && this !in child.Repr
      modifies this
      ensures childs == old(childs) + [Link(Some(edge), child)]
      ensures heaps == old(heaps) && minLinks == old(minLinks)
      ensures Tree() && Repr == old(Repr) + child.Repr
      ensures old(IsMeetTargetSize()) ==> IsMeetTargetSize()
    {
      childs := childs + [Link(Some(edge), child)];
      Repr := Repr + child.Repr;
    }

    /** `PopLastChild` removes and returns the last child. */
    method PopLastChild() returns (child: SubGraph)
      requires Tree() && childs != []
      modifies this
      ensures childs + [Link(old(childs)[|old(childs)| - 1].edge, child)] == old(childs)
      ensures heaps == old(heaps) && minLinks == old(minLinks) && Repr == old(Repr) && Tree()
    {
      child := childs[|childs| - 1].child;
      childs := childs[..|childs| - 1];
    }

    /** `FindHeapWithMin`: a heap whose live minimum is smallest over all the
        node's heaps (the first such), None when every heap is empty.  Asking
        a heap for its minimum discards stale entries, nothing live. */
    method FindHeapWithMin() returns (result: Option<MSTSoftHeapDecorator>)
      requires HeapsValid()
      modifies heaps
      ensures HeapsValid()
      ensures forall i :: 0 <= i < |heaps| ==> heaps[i].items == old(heaps[i].items)
      ensures result.None? <==> forall i :: 0 <= i < |heaps| ==> heaps[i].items == []
      ensures result.Some? ==> result.value in heaps && exists e :: (e in result.value.items
        && forall i, x :: 0 <= i < |heaps| && x in heaps[i].items ==> e.edge.weight <= x.edge.weight)
    {
      var m := 0;
      var minValue := heaps[0].FindMin();
      var k := 1;
      while k < |heaps|
        invariant 1 <= k <= |heaps| && m < k && HeapRow(heaps)
        invariant forall i :: 0 <= i < |heaps| ==> heaps[i].items == old(heaps[i].items)
        invariant minValue.None? ==> forall i :: 0 <= i < k ==> heaps[i].items == []
        invariant minValue.Some? ==> (minValue.value in heaps[m].items
          && forall i, x :: 0 <= i < k && x in heaps[i].items ==> minValue.value.edge.weight <= x.edge.weight)
      {
        var newValue := heaps[k].FindMin();
        if minValue.None? || (newValue.Some? && newValue.value.edge.weight < minValue.value.edge.weight) {
          m := k;
          minValue := newValue;
        }
        k := k + 1;
      }
      if minValue.None? {
        return None;
      }
      return Some(heaps[m]);
    }

    /** `DeleteAndReturnIf` on every heap in turn, the results joined. */
    method DeleteAndReturnIf(func: Edge -> bool) returns (result: seq<Edge>)
      requires HeapsValid()
      modifies heaps
      ensures HeapsValid()
      ensures result == TakenAll(old(LiveLists(heaps)), func)
      ensures forall i :: 0 <= i < |heaps| ==> heaps[i].items == Kept(old(heaps[i].items), func)
    {
      ghost var before := LiveLists(heaps);
      result := [];
      var k := 0;
      while k < |heaps|
        invariant k <= |heaps| && HeapRow(heaps)
        invariant result == TakenAll(before[..k], func)
        invariant forall i :: 0 <= i < k ==> heaps[i].items == Kept(before[i], func)
        invariant forall i :: k <= i < |heaps| ==> heaps[i].items == before[i]
      {
        var part := DeleteAndReturnIfAt(k, func);
        assert before[..k + 1][..k] == before[..k];
        result := result + part;
        k := k + 1;
      }
      assert before[..k] == before;
    }

    /** `DeleteAndReturnIf` on heap k alone. */
    method DeleteAndReturnIfAt(k: nat, func: Edge -> bool) returns (part: seq<Edge>)
      requires HeapRow(heaps) && k < |heaps|
      modifies heaps[k]
      ensures HeapRow(heaps)
      ensures part == Taken(old(heaps[k].items), func) && heaps[k].items == Kept(old(heaps[k].items), func)
      ensures forall j :: 0 <= j < |heaps| && j != k ==> heaps[j].items == old(heaps[j].items)
    {
      part := heaps[k].DeleteAndReturnIf(func);
    }
  }
}
