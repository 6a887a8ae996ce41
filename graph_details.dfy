/**
 * The edge table and vertex records of the contractible graph
 * (Graph/GraphDetails.cpp, Graph/GraphDetails.h).
 *
 * An `EdgesView` owns every edge ever added (`Original()`) and a list of the
 * indices still active; disabling an edge removes its index from that list.
 * The list is specified by `ActiveUpTo`: the indices of the non-disabled edges
 * in insertion order.
 */
module GraphDetails {
  import opened Wrappers

  newtype uint32 = x: int | 0 <= x < 0x1_0000_0000

  // ---------------------------------------------------------------------------
  // Edge
  // ---------------------------------------------------------------------------

  datatype Edge = Edge(
    i: nat,
    j: nat,
    weight: uint32,
    index: nat,
    originalIndex: Option<nat>,
    contracted: bool,
    disabled: bool)
  {
    /** The stored original index when there is one, else the edge's own index. */
    function OriginalIndex(): (r: nat)
      ensures originalIndex.None? ==> r == index
      ensures originalIndex.Some? ==> r == originalIndex.value
    {
      if originalIndex.Some? then originalIndex.value else index
    }

    function OriginalVertices(): (nat, nat) {
      (i, j)
    }
  }

  /** The `Edge` constructor: no original index, neither contracted nor disabled. */
  function NewEdge(i: nat, j: nat, weight: uint32, index: nat): (e: Edge)
    ensures e.OriginalVertices() == (i, j) && e.weight == weight && e.index == index
    ensures !e.contracted && !e.disabled
    ensures e.OriginalIndex() == index
  {
    Edge(i, j, weight, index, None, false, false)
  }

  /** `operator<`: edges order by weight only. */
  predicate EdgeLess(a: Edge, b: Edge) {
    a.weight < b.weight
  }

  /** `operator==`: edges are the same iff their indices are. */
  predicate EdgeSame(a: Edge, b: Edge) {
    a.index == b.index
  }

  lemma EdgeComparisons(a: Edge, b: Edge, c: Edge)
    ensures !EdgeLess(a, a)
    ensures EdgeLess(a, b) && EdgeLess(b, c) ==> EdgeLess(a, c)
    ensures EdgeLess(a, b) ==> !EdgeLess(b, a)
    ensures EdgeLess(a, b) <==> EdgeLess(a.(i := c.i, j := c.j, index := c.index, contracted := c.contracted, disabled := c.disabled), b)
    ensures EdgeSame(a, b) <==> a.index == b.index
    ensures EdgeSame(a, b) && EdgeSame(b, c) ==> EdgeSame(a, c)
  {
  }

  // ---------------------------------------------------------------------------
  // MemberOfSubGraph
  // ---------------------------------------------------------------------------

  datatype Member = Member(parent: nat, original: nat, rank: nat) {
    predicate IsRoot() {
      parent == original
    }

    function SetParent(p: nat): (m: Member)
      ensures m.parent == p && m.original == original && m.rank == rank
    {
      this.(parent := p)
    }
  }

  /** The `MemberOfSubGraph` constructor: its own parent and original vertex. */
  function NewMember(vertex: nat, rank: nat): (m: Member)
    ensures m.IsRoot() && m.original == vertex && m.rank == rank
  {
    Member(vertex, vertex, rank)
  }

  /** `operator==` on members: same parent. */
  predicate MemberSame(a: Member, b: Member) {
    a.parent == b.parent
  }

  /** `operator<` on members: by rank. */
  predicate MemberLess(a: Member, b: Member) {
    a.rank < b.rank
  }

  lemma MemberComparisons(a: Member, b: Member)
    ensures MemberSame(a, b) <==> a.parent == b.parent
    ensures MemberLess(a, b) ==> !MemberLess(b, a)
    ensures a.rank == b.rank ==> !MemberLess(a, b) && !MemberLess(b, a)
    ensures a.IsRoot() && b.IsRoot() ==> (MemberSame(a, b) <==> a.original == b.original)
  {
  }

  // ---------------------------------------------------------------------------
  // The active index list
  // ---------------------------------------------------------------------------

  ghost predicate StrictlyIncreasing(s: seq<nat>) {
    forall a, b :: 0 <= a < b < |s| ==> s[a] < s[b]
  }

  /** The indices below n of the edges that are not disabled, in increasing order. */
  function ActiveUpTo(edges: seq<Edge>, n: nat): (r: seq<nat>)
    requires n <= |edges|
    ensures forall a :: 0 <= a < |r| ==> r[a] < n
  {
    if n == 0 then []
    else
      var before := ActiveUpTo(edges, n - 1);
      if edges[n - 1].disabled then before else before + [n - 1]
  }

  /** The active list holds exactly the indices of the edges that are not
      disabled, each once and in increasing order. */
  lemma {:induction false} ActiveUpToExact(edges: seq<Edge>, n: nat)
    requires n <= |edges|
    ensures forall k :: 0 <= k < n ==> (k in ActiveUpTo(edges, n) <==> !edges[k].disabled)
    ensures StrictlyIncreasing(ActiveUpTo(edges, n))
  {
    if n > 0 {
      ActiveUpToExact(edges, n - 1);
    }
  }

  /** `std::list::remove`: every occurrence of x goes, the rest keep their order. */
  function RemoveAll(s: seq<nat>, x: nat): (r: seq<nat>)
    ensures forall y :: y in r <==> y in s && y != x
    ensures |r| <= |s|
  {
    if s == [] then []
    else if s[0] == x then RemoveAll(s[1..], x)
    else [s[0]] + RemoveAll(s[1..], x)
  }

  lemma {:induction false} RemoveAllAppend(s: seq<nat>, t: seq<nat>, x: nat)
    ensures RemoveAll(s + t, x) == RemoveAll(s, x) + RemoveAll(t, x)
    decreases |s|
  {
    if s == [] {
      assert s + t == t;
    } else {
      assert (s + t)[1..] == s[1..] + t;
      RemoveAllAppend(s[1..], t, x);
    }
  }

  /** Removing a value that is absent changes nothing. */
  lemma {:induction false} RemoveAllAbsent(s: seq<nat>, x: nat)
    requires x !in s
    ensures RemoveAll(s, x) == s
    decreases |s|
  {
    if s != [] {
      RemoveAllAbsent(s[1..], x);
    }
  }

  /** The active list depends only on the first n edges' flags. */
  lemma {:induction false} ActiveUpToPrefix(edges: seq<Edge>, edges': seq<Edge>, n: nat)
    requires n <= |edges| && n <= |edges'|
    requires forall k :: 0 <= k < n ==> edges[k].disabled == edges'[k].disabled
    ensures ActiveUpTo(edges, n) == ActiveUpTo(edges', n)
  {
    if n > 0 {
      ActiveUpToPrefix(edges, edges', n - 1);
    }
  }

  /** Disabling edge x removes x from the active list and nothing else. */
  lemma {:induction false} ActiveUpToDisable(edges: seq<Edge>, x: nat, e: Edge, n: nat)
    requires x < |edges| && n <= |edges| && e.disabled
    ensures ActiveUpTo(edges[x := e], n) == RemoveAll(ActiveUpTo(edges, n), x)
  {
    if n > 0 {
      var updated := edges[x := e];
      ActiveUpToDisable(edges, x, e, n - 1);
      var before := ActiveUpTo(edges, n - 1);
      if n - 1 == x {
        assert ActiveUpTo(updated, n) == RemoveAll(before, x);
        if !edges[x].disabled {
          RemoveAllAppend(before, [x], x);
          assert RemoveAll([x], x) == [];
        }
      } else if !edges[n - 1].disabled {
        assert updated[n - 1] == edges[n - 1];
        RemoveAllAppend(before, [n - 1], x);
        assert RemoveAll([n - 1], x) == [n - 1];
      } else {
        assert updated[n - 1] == edges[n - 1];
      }
    }
  }

  /** The non-disabled edges in table order: what iterating the view visits. */
  function NotDisabled(edges: seq<Edge>): (r: seq<Edge>)
    ensures forall e :: e in r <==> e in edges && !e.disabled
  {
    if edges == [] then []
    else
      var before := NotDisabled(edges[..|edges| - 1]);
      assert edges == edges[..|edges| - 1] + [edges[|edges| - 1]];
      if edges[|edges| - 1].disabled then before else before + [edges[|edges| - 1]]
  }

  /** The edges at the given indices, in the order of the indices. */
  function EdgesAt(edges: seq<Edge>, indices: seq<nat>): (r: seq<Edge>)
    requires forall a :: 0 <= a < |indices| ==> indices[a] < |edges|
    ensures |r| == |indices|
    ensures forall a :: 0 <= a < |indices| ==> r[a] == edges[indices[a]]
  {
    seq(|indices|, a requires 0 <= a < |indices| => edges[indices[a]])
  }

  // ---------------------------------------------------------------------------
  // EdgesView
  // ---------------------------------------------------------------------------

  class EdgesView {
    var edges: seq<Edge>
    var active: seq<nat>

    /** Every edge sits at its own index, contracted edges are disabled, and the
        active list is exactly the non-disabled indices in insertion order. */
    ghost predicate Valid()
      reads this
    {
      && Indexed()
      && (forall k :: 0 <= k < |edges| && edges[k].contracted ==> edges[k].disabled)
    }

    ghost predicate Indexed()
      reads this
    {
      && (forall k :: 0 <= k < |edges| ==> edges[k].index == k)
      && active == ActiveUpTo(edges, |edges|)
    }

    constructor ()
      ensures Valid() && edges == [] && active == []
    {
      edges := [];
      active := [];
    }

    /** `AddEdge`: the new edge gets the next index, endpoints (min, max), and
        its index is appended to the active list. */
    method AddEdge(begin: nat, end: nat, weight: uint32)
      requires Valid()
      modifies this
      ensures Valid()
      ensures edges == old(edges) + [NewEdge(if begin <= end then begin else end, if begin <= end then end else begin, weight, |old(edges)|)]
      ensures active == old(active) + [|old(edges)|]
    {
      var index := |edges|;
      active := active + [index];
      edges := edges + [NewEdge(if begin <= end then begin else end, if begin <= end then end else begin, weight, index)];
      ActiveUpToPrefix(old(edges), edges, index);
    }

    /** `DisableEdge`: drops the index from the active list and flags the edge. */
    method DisableEdge(index: nat)
      requires Indexed() && index < |edges|
      requires forall k :: 0 <= k < |edges| && k != index && edges[k].contracted ==> edges[k].disabled
      modifies this
      ensures Valid()
      ensures edges == old(edges)[index := old(edges)[index].(disabled := true)]
      ensures active == RemoveAll(old(active), index)
    {
      ActiveUpToDisable(edges, index, edges[index].(disabled := true), |edges|);
      active := RemoveAll(active, index);
      edges := edges[index := edges[index].(disabled := true)];
    }

    /** `ContractEdge`: flags the edge contracted, then disables it. */
    method ContractEdge(index: nat)
      requires Valid() && index < |edges|
      modifies this
      ensures Valid()
      ensures edges == old(edges)[index := old(edges)[index].(contracted := true, disabled := true)]
      ensures active == RemoveAll(old(active), index)
    {
      ghost var before := edges;
      var flagged := edges[index].(contracted := true);
      edges := edges[index := flagged];
      ActiveUpToPrefix(before, edges, |edges|);
      DisableEdge(index);
      assert edges == before[index := flagged.(disabled := true)];
    }

    /** `operator[]`: requires index < size; returns the edge with that index. */
    function Get(index: nat): (e: Edge)
      reads this
      requires Valid() && index < |edges|
      ensures e.index == index && e in edges
    {
      edges[index]
    }

    /** Iteration: the edges at the active indices, in list order. */
    function Visit(): (r: seq<Edge>)
      reads this
      requires Valid()
      ensures |r| == |active|
    {
      EdgesAt(edges, active)
    }

    /** `Original()`: every edge, including disabled and contracted ones. */
    function Original(): seq<Edge>
      reads this
    {
      edges
    }
  }

  /** Iterating the view visits exactly the non-disabled edges, in table order. */
  lemma {:induction false} VisitIsNotDisabled(edges: seq<Edge>, n: nat)
    requires n <= |edges|
    requires forall k :: 0 <= k < |edges| ==> edges[k].index == k
    ensures EdgesAt(edges, ActiveUpTo(edges, n)) == NotDisabled(edges[..n])
  {
    var act := ActiveUpTo(edges, n);
    if n > 0 {
      VisitIsNotDisabled(edges, n - 1);
      var before := ActiveUpTo(edges, n - 1);
      assert edges[..n][..n - 1] == edges[..n - 1];
      if !edges[n - 1].disabled {
        assert act == before + [n - 1];
      }
    }
  }

  lemma ViewVisitsNotDisabled(view: EdgesView)
    requires view.Valid()
    ensures view.Visit() == NotDisabled(view.Original())
  {
    VisitIsNotDisabled(view.edges, |view.edges|);
    assert view.edges[..|view.edges|] == view.edges;
  }

  /** Disabling twice is the same as disabling once. */
  lemma DisableIdempotent(edges: seq<Edge>, active: seq<nat>, x: nat)
    requires x < |edges|
    ensures var e := edges[x := edges[x].(disabled := true)];
      e[x := e[x].(disabled := true)] == e
    ensures RemoveAll(RemoveAll(active, x), x) == RemoveAll(active, x)
  {
    RemoveAllAbsent(RemoveAll(active, x), x);
  }
}
