/**
 * Kruskal's minimum spanning tree with a disjoint-set forest
 * (Graph/Kruskal.cpp, layout in Graph/Kruskal.h).
 *
 * The union-find keeps `parent` and `rnk` arrays of n + 1 slots.  Its meaning is
 * given by `Root`, the representative reached by following parent links; the
 * scan of `kruskalMST` is proved against `Select`, a reference definition that
 * tracks the partition as a tagging of the vertices.
 */
module Kruskal {
  import opened Measures

  datatype Edge = Edge(w: nat, u: nat, v: nat, index: nat)

  // ---------------------------------------------------------------------------
  // Sorting by weight (the std::sort call of kruskalMST)
  // ---------------------------------------------------------------------------

  ghost predicate SortedByWeight(es: seq<Edge>) {
    forall i, j :: 0 <= i < j < |es| ==> es[i].w <= es[j].w
  }

  lemma SortedCons(x: Edge, s: seq<Edge>)
    requires SortedByWeight(s)
    requires forall y :: y in s ==> x.w <= y.w
    ensures SortedByWeight([x] + s)
  {
    var r := [x] + s;
    forall i, j | 0 <= i < j < |r| ensures r[i].w <= r[j].w {
      if i == 0 {
        assert r[j] == s[j - 1];
        assert r[j] in s;
      } else {
        assert r[i] == s[i - 1] && r[j] == s[j - 1];
      }
    }
  }

  /** Everything in a sorted sequence weighs at least its first element. */
  lemma HeadIsLightest(es: seq<Edge>, y: Edge)
    requires SortedByWeight(es) && y in es
    ensures es[0].w <= y.w
  {
    var k :| 0 <= k < |es| && es[k] == y;
  }

  /** Inserts e before the first edge that is strictly heavier. */
  function InsertByWeight(e: Edge, es: seq<Edge>): (r: seq<Edge>)
    requires SortedByWeight(es)
    ensures SortedByWeight(r)
    ensures multiset(r) == multiset(es) + multiset{e}
    ensures forall y :: y in r ==> y == e || y in es
  {
    if es == [] then [e]
    else if e.w <= es[0].w then
      assert forall y :: y in es ==> e.w <= y.w by {
        forall y | y in es ensures e.w <= y.w {
          HeadIsLightest(es, y);
        }
      }
      SortedCons(e, es);
      [e] + es
    else
      var rest := InsertByWeight(e, es[1..]);
      assert es == [es[0]] + es[1..];
      assert forall y :: y in rest ==> es[0].w <= y.w by {
        forall y | y in rest ensures es[0].w <= y.w {
          if y != e {
            HeadIsLightest(es, y);
          }
        }
      }
      SortedCons(es[0], rest);
      [es[0]] + rest
  }

  /** The edges reordered by non-decreasing weight (a stable insertion sort). */
  function SortByWeight(es: seq<Edge>): (r: seq<Edge>)
    ensures SortedByWeight(r)
    ensures multiset(r) == multiset(es)
  {
    if es == [] then []
    else
      assert es == [es[0]] + es[1..];
      InsertByWeight(es[0], SortByWeight(es[1..]))
  }

  /** Sorting keeps the same edges, so a bound on the endpoints survives it. */
  lemma SortKeepsEndpoints(es: seq<Edge>, m: nat)
    requires EndpointsBelow(es, m)
    ensures EndpointsBelow(SortByWeight(es), m)
  {
    var r := SortByWeight(es);
    forall e | e in r ensures e.u < m && e.v < m {
      assert e in multiset(r);
    }
  }

  // ---------------------------------------------------------------------------
  // Reference definition: Kruskal's selection over a tagged partition
  // ---------------------------------------------------------------------------

  /** Merges the class of a into the class of b. */
  function Union(tag: seq<nat>, a: nat, b: nat): (r: seq<nat>)
    requires a < |tag| && b < |tag|
    ensures |r| == |tag|
  {
    seq(|tag|, i requires 0 <= i < |tag| => if tag[i] == tag[a] then tag[b] else tag[i])
  }

  /** Every vertex in a class of its own. */
  function Singletons(n: nat): (r: seq<nat>)
    ensures |r| == n
    ensures forall v :: 0 <= v < n ==> r[v] == v
  {
    seq(n, v => v)
  }

  ghost predicate EndpointsBelow(es: seq<Edge>, m: nat) {
    forall e :: e in es ==> e.u < m && e.v < m
  }

  /** The edges Kruskal keeps: those whose endpoints lie in different classes
      when they are reached; each kept edge merges its two classes. */
  function Select(es: seq<Edge>, tag: seq<nat>): seq<Edge>
    requires EndpointsBelow(es, |tag|)
  {
    if es == [] then []
    else
      var e := es[0];
      if tag[e.u] != tag[e.v] then [e] + Select(es[1..], Union(tag, e.u, e.v))
      else Select(es[1..], tag)
  }

  function Indices(es: seq<Edge>): (r: seq<nat>)
    ensures |r| == |es|
    ensures forall k :: 0 <= k < |es| ==> r[k] == es[k].index
  {
    if es == [] then [] else [es[0].index] + Indices(es[1..])
  }

  lemma SplitAt(es: seq<Edge>, i: nat)
    requires i < |es|
    ensures es[i..] == [es[i]] + es[i + 1..]
    ensures es[i] in es
  {
  }

  lemma IndicesCons(e: Edge, es: seq<Edge>)
    ensures Indices([e] + es) == [e.index] + Indices(es)
  {
    assert ([e] + es)[1..] == es;
  }

  /** The number of classes among the first m vertices. */
  ghost function Classes(tag: seq<nat>, m: nat): nat
    requires m <= |tag|
  {
    |set v | 0 <= v < m :: tag[v]|
  }

  lemma {:induction false} ClassesAtMost(tag: seq<nat>, m: nat)
    requires m <= |tag|
    ensures Classes(tag, m) <= m
    ensures m >= 1 ==> Classes(tag, m) >= 1
  {
    if m >= 1 {
      ClassesAtMost(tag, m - 1);
      var before := set v | 0 <= v < m - 1 :: tag[v];
      var after := set v | 0 <= v < m :: tag[v];
      assert after == before + {tag[m - 1]};
      assert tag[m - 1] in after;
    }
  }

  /** Merging two different classes removes exactly one class. */
  lemma UnionRemovesOneClass(tag: seq<nat>, m: nat, a: nat, b: nat)
    requires m <= |tag| && a < m && b < m
    requires tag[a] != tag[b]
    ensures Classes(Union(tag, a, b), m) == Classes(tag, m) - 1
  {
    var merged := Union(tag, a, b);
    var before := set v | 0 <= v < m :: tag[v];
    var after := set v | 0 <= v < m :: merged[v];
    assert tag[a] in before;
    forall x | x in after ensures x in before - {tag[a]} {
      var v :| 0 <= v < m && merged[v] == x;
      if tag[v] == tag[a] {
        assert x == tag[b];
        assert tag[b] in before;
      }
    }
    forall x | x in before - {tag[a]} ensures x in after {
      var v :| 0 <= v < m && tag[v] == x;
      assert merged[v] == x;
    }
    assert after == before - {tag[a]};
  }

  /** Kruskal keeps fewer edges than there are classes: at most m - 1 when every
      endpoint is below m. */
  lemma {:induction false} SelectBound(es: seq<Edge>, tag: seq<nat>, m: nat)
    requires 1 <= m <= |tag|
    requires EndpointsBelow(es, m)
    ensures |Select(es, tag)| <= Classes(tag, m) - 1
    decreases |es|
  {
    ClassesAtMost(tag, m);
    if es != [] {
      var e := es[0];
      if tag[e.u] != tag[e.v] {
        var merged := Union(tag, e.u, e.v);
        UnionRemovesOneClass(tag, m, e.u, e.v);
        SelectBound(es[1..], merged, m);
      } else {
        SelectBound(es[1..], tag, m);
      }
    }
  }

  lemma {:induction false} SelectKeepsOnlyScanned(es: seq<Edge>, tag: seq<nat>)
    requires EndpointsBelow(es, |tag|)
    ensures forall e :: e in Select(es, tag) ==> e in es
    decreases |es|
  {
    if es != [] {
      var e := es[0];
      if tag[e.u] != tag[e.v] {
        SelectKeepsOnlyScanned(es[1..], Union(tag, e.u, e.v));
      } else {
        SelectKeepsOnlyScanned(es[1..], tag);
      }
    }
  }

  /** The kept edges come in non-decreasing weight order when the scan is sorted. */
  lemma {:induction false} SelectKeepsWeightOrder(es: seq<Edge>, tag: seq<nat>)
    requires EndpointsBelow(es, |tag|)
    requires SortedByWeight(es)
    ensures SortedByWeight(Select(es, tag))
    decreases |es|
  {
    if es != [] {
      var e := es[0];
      var rest := es[1..];
      assert SortedByWeight(rest);
      if tag[e.u] != tag[e.v] {
        var merged := Union(tag, e.u, e.v);
        SelectKeepsWeightOrder(rest, merged);
        SelectKeepsOnlyScanned(rest, merged);
        var tail := Select(rest, merged);
        forall y | y in tail ensures e.w <= y.w {
          var k :| 0 <= k < |rest| && rest[k] == y;
          assert es[k + 1] == y;
        }
        SortedCons(e, tail);
      } else {
        SelectKeepsWeightOrder(rest, tag);
      }
    }
  }

  // ---------------------------------------------------------------------------
  // Parent forests ranked by `rnk`
  // ---------------------------------------------------------------------------

  /** Parent links stay inside the array and a child's rank is below its parent's. */
  ghost predicate Ranked(parent: seq<nat>, rank: seq<nat>) {
    && |parent| == |rank|
    && (forall v :: 0 <= v < |parent| ==> parent[v] < |parent|)
    && (forall v :: 0 <= v < |parent| && parent[v] != v ==> rank[v] < rank[parent[v]])
  }

  /** The representative of v: the end of its chain of parent links. */
  ghost function Root(parent: seq<nat>, rank: seq<nat>, v: nat): (r: nat)
    requires Ranked(parent, rank) && v < |parent|
    ensures r < |parent| && parent[r] == r
    ensures rank[v] <= rank[r]
    ensures parent[v] != v ==> rank[v] < rank[r]
    decreases MaxOf(rank) - rank[v]
  {
    if parent[v] == v then v else Root(parent, rank, parent[v])
  }

  /** Any ranking that keeps the forest ranked gives the same representatives. */
  lemma {:induction false} RootIgnoresRanks(parent: seq<nat>, rank: seq<nat>, rank': seq<nat>, v: nat)
    requires Ranked(parent, rank) && Ranked(parent, rank') && v < |parent|
    ensures Root(parent, rank, v) == Root(parent, rank', v)
    decreases MaxOf(rank) - rank[v]
  {
    if parent[v] != v {
      RootIgnoresRanks(parent, rank, rank', parent[v]);
    }
  }

  /** Path compression: pointing u straight at its representative changes no
      representative. */
  lemma {:induction false} CompressKeepsRoots(parent: seq<nat>, rank: seq<nat>, u: nat, v: nat)
    requires Ranked(parent, rank) && u < |parent| && v < |parent|
    ensures Ranked(parent[u := Root(parent, rank, u)], rank)
    ensures Root(parent[u := Root(parent, rank, u)], rank, v) == Root(parent, rank, v)
    decreases MaxOf(rank) - rank[v]
  {
    var r := Root(parent, rank, u);
    var compressed := parent[u := r];
    if v == u {
      if r != u {
        assert compressed[r] == r;
      }
    } else if parent[v] != v {
      CompressKeepsRoots(parent, rank, u, parent[v]);
    }
  }

  /** Linking root a under root b sends a's whole tree to b. */
  lemma {:induction false} LinkRoots(parent: seq<nat>, rank: seq<nat>, rank': seq<nat>, a: nat, b: nat, v: nat)
    requires Ranked(parent, rank) && a < |parent| && b < |parent| && v < |parent|
    requires parent[a] == a && parent[b] == b && a != b
    requires Ranked(parent[a := b], rank')
    ensures Root(parent[a := b], rank', v) == if Root(parent, rank, v) == a then b else Root(parent, rank, v)
    decreases MaxOf(rank) - rank[v]
  {
    var linked := parent[a := b];
    if v == a {
      assert linked[b] == b;
    } else if parent[v] != v {
      LinkRoots(parent, rank, rank', a, b, parent[v]);
    }
  }

  lemma RootsIgnoreRanks(parent: seq<nat>, rank: seq<nat>, rank': seq<nat>)
    requires Ranked(parent, rank) && Ranked(parent, rank')
    ensures RootsOf(parent, rank') == RootsOf(parent, rank)
  {
    forall v | 0 <= v < |parent| ensures Root(parent, rank, v) == Root(parent, rank', v) {
      RootIgnoresRanks(parent, rank, rank', v);
    }
  }

  /** Union by rank: root `child` goes under root `top`, whose new rank exceeds
      child's; only top's rank may grow.  The forest stays ranked and exactly the
      tree of child changes representative. */
  lemma LinkAll(parent: seq<nat>, rank: seq<nat>, rank': seq<nat>, child: nat, top: nat)
    requires Ranked(parent, rank) && child < |parent| && top < |parent| && child != top
    requires parent[child] == child && parent[top] == top
    requires |rank'| == |rank| && rank'[child] < rank'[top] && rank[top] <= rank'[top]
    requires forall v :: 0 <= v < |rank| && v != top ==> rank'[v] == rank[v]
    ensures Ranked(parent[child := top], rank')
    ensures forall v :: 0 <= v < |parent| ==>
      RootsOf(parent[child := top], rank')[v] == if RootsOf(parent, rank)[v] == child then top else RootsOf(parent, rank)[v]
  {
    var linked := parent[child := top];
    assert Ranked(linked, rank');
    forall v | 0 <= v < |parent|
      ensures Root(linked, rank', v) == if Root(parent, rank, v) == child then top else Root(parent, rank, v)
    {
      LinkRoots(parent, rank, rank', child, top, v);
    }
  }

  /** The representatives of all vertices. */
  ghost function RootsOf(parent: seq<nat>, rank: seq<nat>): (r: seq<nat>)
    requires Ranked(parent, rank)
    ensures |r| == |parent|
    ensures forall v :: 0 <= v < |r| ==> r[v] == Root(parent, rank, v)
  {
    seq(|parent|, v requires 0 <= v < |parent| => Root(parent, rank, v))
  }

  /** Representatives and tags induce the same partition. */
  ghost predicate SamePartition(roots: seq<nat>, tag: seq<nat>) {
    && |roots| == |tag|
    && forall a, b :: 0 <= a < |tag| && 0 <= b < |tag| ==> (roots[a] == roots[b] <==> tag[a] == tag[b])
  }

  /** A merge of the sets of u and v on the forest matches Union on the tags. */
  lemma MergeMatchesUnion(roots: seq<nat>, roots': seq<nat>, tag: seq<nat>, u: nat, v: nat)
    requires SamePartition(roots, tag) && u < |tag| && v < |tag| && |roots'| == |roots|
    requires roots'[v] in {roots[u], roots[v]}
    requires forall x :: 0 <= x < |roots| ==>
      roots'[x] == if roots[x] in {roots[u], roots[v]} then roots'[v] else roots[x]
    ensures SamePartition(roots', Union(tag, u, v))
  {
  }

  // ---------------------------------------------------------------------------
  // DisjointSets
  // ---------------------------------------------------------------------------

  class DisjointSets {
    const n: nat
    const parent: array<nat>
    const rnk: array<nat>

    ghost predicate Valid()
      reads this, parent, rnk
    {
      && parent != rnk
      && parent.Length == n + 1
      && Ranked(parent[..], rnk[..])
    }

    /** The representative of every slot. */
    ghost function Roots(): (r: seq<nat>)
      reads this, parent, rnk
      requires Valid()
      ensures |r| == n + 1
    {
      RootsOf(parent[..], rnk[..])
    }

    /** n + 1 singleton sets of rank 0. */
    constructor (n: nat)
      ensures Valid() && this.n == n
      ensures fresh(parent) && fresh(rnk)
      ensures forall v :: 0 <= v <= n ==> parent[v] == v && rnk[v] == 0
      ensures forall v :: 0 <= v <= n ==> Roots()[v] == v
    {
      this.n := n;
      var p := new nat[n + 1];
      var rk := new nat[n + 1];
      var i := 0;
      while i <= n
        invariant 0 <= i <= n + 1
        invariant forall v :: 0 <= v < i ==> p[v] == v && rk[v] == 0
      {
        rk[i] := 0;
        p[i] := i;
        i := i + 1;
      }
      parent := p;
      rnk := rk;
    }

    /** `find` with path compression: returns u's representative, points u
        straight at it and changes no representative. */
    method Find(u: nat) returns (root: nat)
      requires Valid() && u <= n
      modifies parent
      ensures Valid()
      ensures Roots() == old(Roots())
      ensures root == Roots()[u]
      ensures parent[u] == root
      ensures rnk[..] == old(rnk[..])
      decreases MaxOf(rnk[..]) - rnk[u]
    {
      if u != parent[u] {
        var pu := parent[u];
        assert Roots()[u] == Roots()[pu];
        var up := Find(pu);
        ghost var before := parent[..];
        forall v | 0 <= v <= n
          ensures Root(before[u := up], rnk[..], v) == Root(before, rnk[..], v)
        {
          CompressKeepsRoots(before, rnk[..], u, v);
        }
        CompressKeepsRoots(before, rnk[..], u, u);
        parent[u] := up;
        assert parent[..] == before[u := up];
        assert Roots() == RootsOf(before, rnk[..]);
      }
      root := parent[u];
    }

    /** `merge`: the root of lower rank goes under the other; on equal ranks x's
        root goes under y's and y's rank grows by one.  The two sets become one,
        every other set is untouched. */
    method Merge(x: nat, y: nat)
      requires Valid() && x <= n && y <= n
      modifies parent, rnk
      ensures Valid()
      ensures Roots()[y] in {old(Roots()[x]), old(Roots()[y])}
      ensures forall v :: 0 <= v <= n ==>
        Roots()[v] == if old(Roots()[v]) in {old(Roots()[x]), old(Roots()[y])} then Roots()[y] else old(Roots()[v])
      ensures var rx, ry := old(Roots()[x]), old(Roots()[y]);
        && (old(rnk[rx]) > old(rnk[ry]) ==> parent[ry] == rx)
        && (old(rnk[rx]) <= old(rnk[ry]) ==> parent[rx] == ry)
        && rnk[..] == if old(rnk[rx]) == old(rnk[ry]) then old(rnk[..])[ry := old(rnk[ry]) + 1] else old(rnk[..])
    {
      var rx := Find(x);
      var ry := Find(y);
      ghost var p, rk := parent[..], rnk[..];
      if rnk[rx] > rnk[ry] {
        parent[ry] := rx;
      } else {
        parent[rx] := ry;
      }
      ghost var p' := parent[..];
      if rnk[rx] == rnk[ry] {
        rnk[ry] := rnk[ry] + 1;
      }
      MergeAll(p, rk, x, y, rx, ry, p', rnk[..]);
    }
  }

  /** `merge` on the arrays' contents: the two roots' trees become one, whose
      representative is that of y, and every other tree keeps its root. */
  lemma MergeAll(p: seq<nat>, rk: seq<nat>, x: nat, y: nat, rx: nat, ry: nat, p': seq<nat>, rk': seq<nat>)
    requires Ranked(p, rk) && x < |p| && y < |p|
    requires rx == RootsOf(p, rk)[x] && ry == RootsOf(p, rk)[y]
    requires p' == if rk[rx] > rk[ry] then p[ry := rx] else p[rx := ry]
    requires rk' == if rk[rx] == rk[ry] then rk[ry := rk[ry] + 1] else rk
    ensures Ranked(p', rk')
    ensures RootsOf(p', rk')[y] in {rx, ry}
    ensures forall v :: 0 <= v < |p| ==>
      RootsOf(p', rk')[v] == if RootsOf(p, rk)[v] in {rx, ry} then RootsOf(p', rk')[y] else RootsOf(p, rk)[v]
  {
    if rx != ry {
      var child, top := if rk[rx] > rk[ry] then ry else rx, if rk[rx] > rk[ry] then rx else ry;
      LinkAll(p, rk, rk', child, top);
    } else {
      assert p' == p;
      RootsIgnoreRanks(p, rk, rk');
    }
  }

  // ---------------------------------------------------------------------------
  // The graph and kruskalMST
  // ---------------------------------------------------------------------------

  class Graph {
    const V: nat
    const E: nat
    var edges: seq<Edge>

    constructor (V: nat, E: nat)
      ensures this.V == V && this.E == E && edges == []
    {
      this.V := V;
      this.E := E;
      edges := [];
    }

    /** `addEdge` appends exactly one edge {w, u, v, index}. */
    method AddEdge(u: nat, v: nat, w: nat, index: nat)
      modifies this
      ensures edges == old(edges) + [Edge(w, u, v, index)]
    {
      edges := edges + [Edge(w, u, v, index)];
    }

    /** `kruskalMST`: sorts the edges in place by weight, then keeps an edge iff
        its endpoints are in different sets, merging them.  Endpoints must be at
        most V (the disjoint sets have V + 1 slots). */
    method KruskalMST() returns (result: seq<nat>)
      requires EndpointsBelow(edges, V + 1)
      modifies this
      ensures KruskalOutcome(old(edges), V, edges, result)
    {
      var sorted;
      sorted, result := SortAndJoin(edges, V);
      edges := sorted;
    }
  }

  /** What `kruskalMST` leaves behind: the edge list sorted by weight, and the
      indices of the edges the sorted scan keeps, starting from singletons. */
  ghost predicate KruskalOutcome(es: seq<Edge>, V: nat, sorted: seq<Edge>, result: seq<nat>) {
    && sorted == SortByWeight(es)
    && EndpointsBelow(sorted, V + 1)
    && result == Indices(Select(sorted, Singletons(V + 1)))
  }

  /** The two stages of `kruskalMST` on a value: sort, then keep joining edges. */
  method SortAndJoin(es: seq<Edge>, V: nat) returns (sorted: seq<Edge>, result: seq<nat>)
    requires EndpointsBelow(es, V + 1)
    ensures sorted == SortByWeight(es)
    ensures EndpointsBelow(sorted, V + 1)
    ensures result == Indices(Select(sorted, Singletons(V + 1)))
    ensures KruskalOutcome(es, V, sorted, result)
  {
    sorted := SortByWeight(es);
    SortKeepsEndpoints(es, V + 1);
    result := KeepJoiningEdges(sorted, V);
  }

  /** One step of the reference selection. */
  lemma SelectStep(es: seq<Edge>, i: nat, tag: seq<nat>)
    requires i < |es| && EndpointsBelow(es[i..], |tag|)
    ensures es[i].u < |tag| && es[i].v < |tag|
    ensures EndpointsBelow(es[i + 1..], |tag|)
    ensures Indices(Select(es[i..], tag)) ==
      if tag[es[i].u] != tag[es[i].v]
      then [es[i].index] + Indices(Select(es[i + 1..], Union(tag, es[i].u, es[i].v)))
      else Indices(Select(es[i + 1..], tag))
  {
    SplitAt(es, i);
    var e := es[i];
    if tag[e.u] != tag[e.v] {
      IndicesCons(e, Select(es[i + 1..], Union(tag, e.u, e.v)));
    }
  }

  /** The body of the `kruskalMST` loop for one edge: find both endpoints' sets
      and, when they differ, merge them.  `tag` follows the partition. */
  method ConsiderEdge(ds: DisjointSets, e: Edge, ghost tag: seq<nat>) returns (kept: bool, ghost tag': seq<nat>)
    requires ds.Valid() && e.u <= ds.n && e.v <= ds.n
    requires SamePartition(ds.Roots(), tag)
    modifies ds.parent, ds.rnk
    ensures ds.Valid()
    ensures kept <==> tag[e.u] != tag[e.v]
    ensures tag' == if kept then Union(tag, e.u, e.v) else tag
    ensures SamePartition(ds.Roots(), tag')
  {
    var setU := ds.Find(e.u);
    var setV := ds.Find(e.v);
    kept := setU != setV;
    tag' := tag;
    if kept {
      ghost var before := ds.Roots();
      ds.Merge(setU, setV);
      MergeMatchesUnion(before, ds.Roots(), tag, e.u, e.v);
      tag' := Union(tag, e.u, e.v);
    }
  }

  /** The loop of `kruskalMST` over the sorted edges: an edge's index is kept iff
      its endpoints are in different sets of the disjoint-set forest, whose sets
      are then merged. */
  method KeepJoiningEdges(es: seq<Edge>, V: nat) returns (result: seq<nat>)
    requires EndpointsBelow(es, V + 1)
    ensures result == Indices(Select(es, Singletons(V + 1)))
  {
    ghost var initial: seq<nat> := Singletons(V + 1);
    var ds := new DisjointSets(V);
    result := [];
    ghost var tag: seq<nat> := initial;
    var i := 0;
    while i < |es|
      invariant 0 <= i <= |es|
      invariant EndpointsBelow(es[i..], V + 1)
      invariant ds.Valid() && ds.n == V && |tag| == V + 1
      invariant SamePartition(ds.Roots(), tag)
      invariant result + Indices(Select(es[i..], tag)) == Indices(Select(es, initial))
    {
      result, tag := JoinStep(ds, es, i, result, tag, initial);
      i := i + 1;
    }
  }

  /** One iteration of the `kruskalMST` loop: edge es[i] is considered and the
      selection still to come shrinks by one edge. */
  method JoinStep(ds: DisjointSets, es: seq<Edge>, i: nat, result: seq<nat>, ghost tag: seq<nat>, ghost initial: seq<nat>)
    returns (result': seq<nat>, ghost tag': seq<nat>)
    requires i < |es| && EndpointsBelow(es[i..], ds.n + 1) && EndpointsBelow(es, |initial|)
    requires ds.Valid() && |tag| == ds.n + 1 && SamePartition(ds.Roots(), tag)
    requires result + Indices(Select(es[i..], tag)) == Indices(Select(es, initial))
    modifies ds.parent, ds.rnk
    ensures EndpointsBelow(es[i + 1..], ds.n + 1)
    ensures ds.Valid() && |tag'| == ds.n + 1 && SamePartition(ds.Roots(), tag')
    ensures result' + Indices(Select(es[i + 1..], tag')) == Indices(Select(es, initial))
  {
    var e := es[i];
    SelectStep(es, i, tag);
    var kept;
    kept, tag' := ConsiderEdge(ds, e, tag);
    result' := if kept then result + [e.index] else result;
    JoinAccount(e.index, Indices(Select(es[i + 1..], tag')), Indices(Select(es[i..], tag)),
                Indices(Select(es, initial)), kept, result, result');
  }

  /** The bookkeeping of one loop iteration: the selection still to come
      loses its head, which moves into the result when it is kept. */
  lemma JoinAccount(x: nat, rest: seq<nat>, now: seq<nat>, total: seq<nat>, kept: bool,
                    result: seq<nat>, result': seq<nat>)
    requires now == if kept then [x] + rest else rest
    requires result + now == total
    requires result' == if kept then result + [x] else result
    ensures result' + rest == total
  {
    if kept {
      assert |result' + rest| == |total|;
      forall k | 0 <= k < |total|
        ensures (result' + rest)[k] == total[k]
      {
        if k > |result| {
          assert (result' + rest)[k] == rest[k - |result| - 1] == now[k - |result|];
        }
      }
    }
  }

  /** With every endpoint below V, Kruskal keeps at most V - 1 edges, and from a
      sorted scan they come out in non-decreasing weight order. */
  lemma KruskalResultShape(sorted: seq<Edge>, V: nat)
    requires V >= 1 && EndpointsBelow(sorted, V) && SortedByWeight(sorted)
    ensures |Select(sorted, Singletons(V + 1))| <= V - 1
    ensures SortedByWeight(Select(sorted, Singletons(V + 1)))
  {
    var tag := Singletons(V + 1);
    SelectBound(sorted, tag, V);
    ClassesAtMost(tag, V);
    SelectKeepsWeightOrder(sorted, tag);
  }

  // ---------------------------------------------------------------------------
  // The kept edges form a spanning forest
  // ---------------------------------------------------------------------------

  /** Edge e runs between x and y, in either direction. */
  ghost predicate Joins(e: Edge, x: nat, y: nat) {
    (e.u == x && e.v == y) || (e.u == y && e.v == x)
  }

  ghost predicate Adjacent(es: seq<Edge>, x: nat, y: nat) {
    exists e :: e in es && Joins(e, x, y)
  }

  /** A walk along es: a non-empty vertex sequence whose neighbours are joined
      by edges of es. */
  ghost predicate Walk(es: seq<Edge>, p: seq<nat>)
    decreases |p|
  {
    |p| >= 1 && (|p| == 1 || (Adjacent(es, p[0], p[1]) && Walk(es, p[1..])))
  }

  /** Some walk along es leads from a to b. */
  ghost predicate Connected(es: seq<Edge>, a: nat, b: nat) {
    exists p :: Walk(es, p) && p[0] == a && p[|p| - 1] == b
  }

  /** The tags label the connected components of es: two vertices share a tag
      exactly when a walk along es joins them. */
  ghost predicate Components(tag: seq<nat>, es: seq<Edge>) {
    && EndpointsBelow(es, |tag|)
    && forall a, b :: 0 <= a < |tag| && 0 <= b < |tag| ==> (tag[a] == tag[b] <==> Connected(es, a, b))
  }

  /** No edge of kept joins two vertices already connected by the edges before
      it: those of done, then the earlier kept ones. */
  ghost predicate ExtendsForest(done: seq<Edge>, kept: seq<Edge>) {
    forall k :: 0 <= k < |kept| ==> !Connected(done + kept[..k], kept[k].u, kept[k].v)
  }

  lemma {:induction false} WalkWidens(es: seq<Edge>, more: seq<Edge>, p: seq<nat>)
    requires Walk(es, p)
    requires forall e :: e in es ==> e in more
    ensures Walk(more, p)
    decreases |p|
  {
    if |p| > 1 {
      var e :| e in es && Joins(e, p[0], p[1]);
      assert e in more;
      WalkWidens(es, more, p[1..]);
    }
  }

  lemma ConnectedWidens(es: seq<Edge>, more: seq<Edge>, a: nat, b: nat)
    requires Connected(es, a, b)
    requires forall e :: e in es ==> e in more
    ensures Connected(more, a, b)
  {
    var p :| Walk(es, p) && p[0] == a && p[|p| - 1] == b;
    WalkWidens(es, more, p);
  }

  /** Two walks meeting end to start make one walk. */
  lemma {:induction false} WalkJoin(es: seq<Edge>, p: seq<nat>, q: seq<nat>)
    requires Walk(es, p) && Walk(es, q) && p[|p| - 1] == q[0]
    ensures Walk(es, p + q[1..])
    ensures (p + q[1..])[0] == p[0] && (p + q[1..])[|p + q[1..]| - 1] == q[|q| - 1]
    decreases |p|
  {
    if |p| == 1 {
      assert p + q[1..] == q;
    } else {
      WalkJoin(es, p[1..], q);
      assert (p + q[1..])[1..] == p[1..] + q[1..];
    }
  }

  lemma ConnectedTrans(es: seq<Edge>, a: nat, b: nat, c: nat)
    requires Connected(es, a, b) && Connected(es, b, c)
    ensures Connected(es, a, c)
  {
    var p :| Walk(es, p) && p[0] == a && p[|p| - 1] == b;
    var q :| Walk(es, q) && q[0] == b && q[|q| - 1] == c;
    WalkJoin(es, p, q);
  }

  /** An edge connects its two ends, both ways. */
  lemma EdgeConnects(es: seq<Edge>, e: Edge)
    requires e in es
    ensures Connected(es, e.u, e.v) && Connected(es, e.v, e.u)
  {
    var there, back := [e.u, e.v], [e.v, e.u];
    assert Joins(e, e.u, e.v) && Joins(e, e.v, e.u);
    assert Walk(es, there[1..]) && Walk(es, back[1..]);
    assert Walk(es, there) && Walk(es, back);
  }

  /** A walk never leaves a class of a tagging that every edge stays inside. */
  lemma {:induction false} WalkStaysInClass(es: seq<Edge>, tag: seq<nat>, p: seq<nat>)
    requires Walk(es, p) && p[0] < |tag|
    requires forall e :: e in es ==> e.u < |tag| && e.v < |tag| && tag[e.u] == tag[e.v]
    ensures p[|p| - 1] < |tag| && tag[p[|p| - 1]] == tag[p[0]]
    decreases |p|
  {
    if |p| > 1 {
      var e :| e in es && Joins(e, p[0], p[1]);
      WalkStaysInClass(es, tag, p[1..]);
    }
  }

  /** Before any edge is kept, every vertex is a component of its own. */
  lemma SingletonsAreComponents(n: nat)
    ensures Components(Singletons(n), [])
  {
    var tag := Singletons(n);
    forall a, b | 0 <= a < n && 0 <= b < n
      ensures tag[a] == tag[b] <==> Connected([], a, b)
    {
      if a == b {
        var p := [a];
        assert Walk([], p) && p[0] == a && p[|p| - 1] == b;
      }
      if Connected([], a, b) {
        var p :| Walk([], p) && p[0] == a && p[|p| - 1] == b;
        WalkStaysInClass([], tag, p);
      }
    }
  }

  /** Two vertices whose classes the merge of e's ends puts together are
      connected once e is added. */
  lemma MergedClassesConnect(tag: seq<nat>, done: seq<Edge>, e: Edge, a: nat, b: nat)
    requires Components(tag, done) && e.u < |tag| && e.v < |tag| && a < |tag| && b < |tag|
    requires Union(tag, e.u, e.v)[a] == Union(tag, e.u, e.v)[b]
    ensures Connected(done + [e], a, b)
  {
    var grown := done + [e];
    assert forall d :: d in done ==> d in grown;
    EdgeConnects(grown, e);
    if tag[a] == tag[b] {
      ConnectedWidens(done, grown, a, b);
    } else if tag[a] == tag[e.u] {
      ConnectedWidens(done, grown, a, e.u);
      ConnectedWidens(done, grown, e.v, b);
      ConnectedTrans(grown, a, e.u, e.v);
      ConnectedTrans(grown, a, e.v, b);
    } else {
      ConnectedWidens(done, grown, a, e.v);
      ConnectedWidens(done, grown, e.u, b);
      ConnectedTrans(grown, a, e.v, e.u);
      ConnectedTrans(grown, a, e.u, b);
    }
  }

  /** Kruskal's merge keeps the tags in step with connectivity: adding an edge
      between two different classes joins exactly those two classes. */
  lemma UnionTracksComponents(tag: seq<nat>, done: seq<Edge>, e: Edge)
    requires Components(tag, done) && e.u < |tag| && e.v < |tag|
    requires tag[e.u] != tag[e.v]
    ensures Components(Union(tag, e.u, e.v), done + [e])
  {
    var merged := Union(tag, e.u, e.v);
    var grown := done + [e];
    forall d | d in grown ensures d.u < |tag| && d.v < |tag| && merged[d.u] == merged[d.v] {
      if d in done {
        EdgeConnects(done, d);
      }
    }
    forall a, b | 0 <= a < |tag| && 0 <= b < |tag|
      ensures merged[a] == merged[b] <==> Connected(grown, a, b)
    {
      if Connected(grown, a, b) {
        var p :| Walk(grown, p) && p[0] == a && p[|p| - 1] == b;
        WalkStaysInClass(grown, merged, p);
      }
      if merged[a] == merged[b] {
        MergedClassesConnect(tag, done, e, a, b);
      }
    }
  }

  /** An edge between two unconnected vertices, followed by a forest grown
      with it, is a forest grown from done. */
  lemma ForestCons(done: seq<Edge>, e: Edge, tail: seq<Edge>)
    requires !Connected(done, e.u, e.v)
    requires ExtendsForest(done + [e], tail)
    ensures ExtendsForest(done, [e] + tail)
  {
    var kept := [e] + tail;
    forall k | 0 <= k < |kept|
      ensures !Connected(done + kept[..k], kept[k].u, kept[k].v)
    {
      if k == 0 {
        assert done + kept[..k] == done;
      } else {
        assert done + kept[..k] == (done + [e]) + tail[..k - 1];
      }
    }
  }

  /** Scanning es from a tagging that labels the components of done, the kept
      edges never close a cycle. */
  lemma {:induction false} SelectGrowsForest(es: seq<Edge>, tag: seq<nat>, done: seq<Edge>)
    requires EndpointsBelow(es, |tag|) && Components(tag, done)
    ensures ExtendsForest(done, Select(es, tag))
    decreases |es|
  {
    if es != [] {
      var e := es[0];
      var rest := es[1..];
      assert forall x :: x in rest ==> x in es;
      if tag[e.u] != tag[e.v] {
        UnionTracksComponents(tag, done, e);
        SelectGrowsForest(rest, Union(tag, e.u, e.v), done + [e]);
        ForestCons(done, e, Select(rest, Union(tag, e.u, e.v)));
      } else {
        SelectGrowsForest(rest, tag, done);
      }
    }
  }

  /** Scanning es from a tagging that labels the components of done, every
      scanned edge ends up with its ends connected by done and the kept edges. */
  lemma {:induction false} SelectSpans(es: seq<Edge>, tag: seq<nat>, done: seq<Edge>)
    requires EndpointsBelow(es, |tag|) && Components(tag, done)
    ensures forall x :: x in es ==> Connected(done + Select(es, tag), x.u, x.v)
    decreases |es|
  {
    if es != [] {
      var e := es[0];
      var rest := es[1..];
      assert forall x :: x in rest ==> x in es;
      var all := done + Select(es, tag);
      if tag[e.u] != tag[e.v] {
        UnionTracksComponents(tag, done, e);
        SelectSpans(rest, Union(tag, e.u, e.v), done + [e]);
        assert all == (done + [e]) + Select(rest, Union(tag, e.u, e.v));
        EdgeConnects(all, e);
      } else {
        SelectSpans(rest, tag, done);
        assert forall d :: d in done ==> d in all;
        ConnectedWidens(done, all, e.u, e.v);
      }
      assert forall x :: x in es ==> x == e || x in rest;
    }
  }

  /** Kruskal's result is a spanning forest of the scanned edges: no kept edge
      joins two vertices that the edges kept before it already connect, and the
      ends of every scanned edge are connected through kept edges. */
  lemma KruskalKeepsSpanningForest(sorted: seq<Edge>, V: nat)
    requires EndpointsBelow(sorted, V + 1)
    ensures var kept := Select(sorted, Singletons(V + 1));
      forall k :: 0 <= k < |kept| ==> !Connected(kept[..k], kept[k].u, kept[k].v)
    ensures forall e :: e in sorted ==> Connected(Select(sorted, Singletons(V + 1)), e.u, e.v)
  {
    var kept := Select(sorted, Singletons(V + 1));
    SingletonsAreComponents(V + 1);
    SelectGrowsForest(sorted, Singletons(V + 1), []);
    SelectSpans(sorted, Singletons(V + 1), []);
    assert forall k :: 0 <= k < |kept| ==> [] + kept[..k] == kept[..k];
    assert [] + kept == kept;
  }
}
