/**
 * The contractible graph of Boruvka's phase (Graph/Graph.cpp, layout in
 * Graph/Graph.h).
 *
 * Vertices are `Member` records linked to their subgraph's root by parent
 * links; `Root` follows them (`FindRootOfSubGraph`, which works on a copy and so
 * changes nothing).  The ghost `height` only proves that the links reach a root.
 * Invariant: every root plus every contracted edge accounts for exactly one
 * original vertex.
 */
module Graph {
  import opened Wrappers
  import opened Measures
  import opened GraphDetails

  // ---------------------------------------------------------------------------
  // Counting
  // ---------------------------------------------------------------------------

  function CountIf<T>(s: seq<T>, p: T -> bool): (r: nat)
    ensures r <= |s|
  {
    if s == [] then 0 else CountIf(s[..|s| - 1], p) + (if p(s[|s| - 1]) then 1 else 0)
  }

  lemma {:induction false} CountIfUpdate<T>(s: seq<T>, p: T -> bool, k: nat, x: T)
    requires k < |s|
    ensures CountIf(s[k := x], p) + (if p(s[k]) then 1 else 0) == CountIf(s, p) + (if p(x) then 1 else 0)
    decreases |s|
  {
    var t := s[k := x];
    assert t[..|t| - 1] == if k == |s| - 1 then s[..|s| - 1] else s[..|s| - 1][k := x];
    if k < |s| - 1 {
      CountIfUpdate(s[..|s| - 1], p, k, x);
    }
  }

  lemma {:induction false} CountIfAppend<T>(s: seq<T>, p: T -> bool, x: T)
    ensures CountIf(s + [x], p) == CountIf(s, p) + (if p(x) then 1 else 0)
  {
    assert (s + [x])[..|s + [x]| - 1] == s;
  }

  lemma {:induction false} CountIfAll<T>(s: seq<T>, p: T -> bool)
    requires forall k :: 0 <= k < |s| ==> p(s[k])
    ensures CountIf(s, p) == |s|
    decreases |s|
  {
    if s != [] {
      CountIfAll(s[..|s| - 1], p);
    }
  }

  predicate IsRootMember(m: Member) {
    m.IsRoot()
  }

  predicate IsContracted(e: Edge) {
    e.contracted
  }

  predicate NotContracted(e: Edge) {
    !e.contracted
  }

  // ---------------------------------------------------------------------------
  // The forest of subgraphs
  // ---------------------------------------------------------------------------

  /** Members sit at their original vertex, parents are in range, and a link
      always leads to a strictly higher member. */
  ghost predicate Forest(subs: seq<Member>, height: seq<nat>) {
    && |height| == |subs|
    && (forall v :: 0 <= v < |subs| ==> subs[v].original == v && subs[v].parent < |subs|)
    && (forall v :: 0 <= v < |subs| && subs[v].parent != v ==> height[v] < height[subs[v].parent])
  }

  /** `FindRootOfSubGraph`: follows parent links up to a member that is its own
      parent. */
  function Root(subs: seq<Member>, ghost height: seq<nat>, v: nat): (r: nat)
    requires Forest(subs, height) && v < |subs|
    ensures r < |subs| && subs[r].IsRoot()
    ensures subs[v].IsRoot() ==> r == v
    decreases MaxOf(height) - height[v]
  {
    if subs[v].IsRoot() then v else Root(subs, height, subs[v].parent)
  }

  function RootsOf(subs: seq<Member>, ghost height: seq<nat>): (r: seq<nat>)
    requires Forest(subs, height)
    ensures |r| == |subs|
  {
    seq(|subs|, v requires 0 <= v < |subs| => Root(subs, height, v))
  }

  lemma {:induction false} RootIgnoresHeight(subs: seq<Member>, height: seq<nat>, height': seq<nat>, v: nat)
    requires Forest(subs, height) && Forest(subs, height') && v < |subs|
    ensures Root(subs, height, v) == Root(subs, height', v)
    decreases MaxOf(height) - height[v]
  {
    if !subs[v].IsRoot() {
      RootIgnoresHeight(subs, height, height', subs[v].parent);
    }
  }

  /** Hanging root a under root b sends a's whole subgraph to b. */
  lemma {:induction false} LinkRoot(subs: seq<Member>, height: seq<nat>, height': seq<nat>, a: nat, b: nat, v: nat)
    requires Forest(subs, height) && a < |subs| && b < |subs| && v < |subs| && a != b
    requires subs[a].IsRoot() && subs[b].IsRoot()
    requires Forest(subs[a := subs[a].SetParent(b)], height')
    ensures Root(subs[a := subs[a].SetParent(b)], height', v) ==
      if Root(subs, height, v) == a then b else Root(subs, height, v)
    decreases MaxOf(height) - height[v]
  {
    var linked := subs[a := subs[a].SetParent(b)];
    if v == a {
      assert linked[b] == subs[b];
    } else if !subs[v].IsRoot() {
      LinkRoot(subs, height, height', a, b, subs[v].parent);
    }
  }

  // ---------------------------------------------------------------------------
  // Pruning parallel edges (RemoveMultipleEdgesForVertex)
  // ---------------------------------------------------------------------------

  /** The cheapest edge seen so far towards each neighbouring root, and the
      indices scheduled for disabling. */
  datatype Scan = Scan(best: map<nat, Edge>, drop: seq<nat>)

  ghost predicate EndsBelow(cands: seq<Edge>, n: nat) {
    forall e :: e in cands ==> e.i < n && e.j < n
  }

  predicate Incident(roots: seq<nat>, vertex: nat, e: Edge)
    requires e.i < |roots| && e.j < |roots|
  {
    roots[e.i] == vertex || roots[e.j] == vertex
  }

  /** The root at the other end of an edge incident to `vertex`. */
  function OutRoot(roots: seq<nat>, vertex: nat, e: Edge): nat
    requires e.i < |roots| && e.j < |roots|
  {
    if roots[e.i] == vertex then roots[e.j] else roots[e.i]
  }

  /** Graph/Graph.cpp:77-78 as written: the disabled edge is chosen by `*ptr < edge`
      but the kept pointer by `edge < *ptr`, so on equal weights the kept pointer
      is the edge just disabled. */
  function PruneStepAsWritten(s: Scan, e: Edge, out: nat): (r: Scan)
    ensures out in r.best
    ensures out !in s.best ==> r == Scan(s.best[out := e], s.drop)
    ensures out in s.best && e.weight == s.best[out].weight ==>
      r.best[out] == s.best[out] && r.drop == s.drop + [s.best[out].index]
  {
    if out !in s.best then Scan(s.best[out := e], s.drop)
    else
      var p := s.best[out];
      Scan(s.best[out := if EdgeLess(e, p) then e else p],
           s.drop + [if EdgeLess(p, e) then e.index else p.index])
  }

  /** The intended step: line 77's choice of the edge to disable is kept (the
      new edge when it is strictly heavier, the recorded one otherwise), and
      the record moves to the edge that was not disabled, so on equal weights
      the later edge survives. */
  function PruneStep(s: Scan, e: Edge, out: nat): (r: Scan)
    ensures out in r.best
    ensures out !in s.best ==> r == Scan(s.best[out := e], s.drop)
    ensures out in s.best ==>
      && r.best == s.best[out := r.best[out]]
      && r.best[out] in {s.best[out], e}
      && r.best[out].weight <= s.best[out].weight && r.best[out].weight <= e.weight
      && r.drop == s.drop + [if r.best[out] == e then s.best[out].index else e.index]
      && (r.best[out] == e <==> e.weight <= s.best[out].weight)
  {
    if out !in s.best then Scan(s.best[out := e], s.drop)
    else
      var p := s.best[out];
      Scan(s.best[out := if EdgeLess(p, e) then p else e],
           s.drop + [if EdgeLess(p, e) then e.index else p.index])
  }

  /** The intended step and the step as written agree except on equal
      weights, where they disable the same edge but keep different ones. */
  lemma PruneStepAgreesOffTies(s: Scan, e: Edge, out: nat)
    ensures PruneStep(s, e, out).drop == PruneStepAsWritten(s, e, out).drop
    ensures out in s.best && e.weight != s.best[out].weight ==> PruneStep(s, e, out) == PruneStepAsWritten(s, e, out)
  {
  }

  /** The scan of the active edges, in order, skipping edges not incident to vertex. */
  function PruneScan(cands: seq<Edge>, roots: seq<nat>, vertex: nat, asWritten: bool): Scan
    requires EndsBelow(cands, |roots|)
  {
    if cands == [] then Scan(map[], [])
    else
      var s := PruneScan(cands[..|cands| - 1], roots, vertex, asWritten);
      var e := cands[|cands| - 1];
      if !Incident(roots, vertex, e) then s
      else if asWritten then PruneStepAsWritten(s, e, OutRoot(roots, vertex, e))
      else PruneStep(s, e, OutRoot(roots, vertex, e))
  }

  ghost predicate DistinctIndices(cands: seq<Edge>) {
    forall a, b :: 0 <= a < b < |cands| ==> cands[a].index != cands[b].index
  }

  ghost function IndicesOf(cands: seq<Edge>): set<nat> {
    set e | e in cands :: e.index
  }

  /** Every kept edge is an incident candidate filed under its neighbouring root. */
  ghost predicate BestAreCandidates(cands: seq<Edge>, roots: seq<nat>, vertex: nat, s: Scan)
    requires EndsBelow(cands, |roots|)
  {
    forall o :: o in s.best ==>
      s.best[o] in cands && Incident(roots, vertex, s.best[o]) && OutRoot(roots, vertex, s.best[o]) == o
  }

  /** Towards each neighbouring root the kept edge is a lightest incident
      candidate, and exactly the other candidates towards that root are dropped. */
  ghost predicate OnlyCheapestSurvive(cands: seq<Edge>, roots: seq<nat>, vertex: nat, s: Scan)
    requires EndsBelow(cands, |roots|)
  {
    forall e :: e in cands && Incident(roots, vertex, e) ==>
      && OutRoot(roots, vertex, e) in s.best
      && s.best[OutRoot(roots, vertex, e)].weight <= e.weight
      && (e.index in s.drop <==> e.index != s.best[OutRoot(roots, vertex, e)].index)
  }

  ghost predicate PruneOutcome(cands: seq<Edge>, roots: seq<nat>, vertex: nat, s: Scan)
    requires EndsBelow(cands, |roots|)
  {
    && BestAreCandidates(cands, roots, vertex, s)
    && OnlyCheapestSurvive(cands, roots, vertex, s)
    && (forall x :: x in s.drop ==> x in IndicesOf(cands))
  }

  /** One intended step keeps the outcome, for a candidate with a fresh index. */
  lemma PruneStepKeepsOutcome(prefix: seq<Edge>, e: Edge, roots: seq<nat>, vertex: nat, s: Scan)
    requires EndsBelow(prefix + [e], |roots|)
    requires PruneOutcome(prefix, roots, vertex, s)
    requires forall c, d :: c in prefix && d in prefix && c.index == d.index ==> c == d
    requires e.index !in IndicesOf(prefix)
    requires Incident(roots, vertex, e)
    ensures PruneOutcome(prefix + [e], roots, vertex, PruneStep(s, e, OutRoot(roots, vertex, e)))
  {
    var cands := prefix + [e];
    var o := OutRoot(roots, vertex, e);
    var r := PruneStep(s, e, o);
    assert e.index !in s.drop;
    assert forall c :: c in prefix ==> c.index != e.index;
    forall c | c in cands && Incident(roots, vertex, c)
      ensures OutRoot(roots, vertex, c) in r.best
      ensures r.best[OutRoot(roots, vertex, c)].weight <= c.weight
      ensures c.index in r.drop <==> c.index != r.best[OutRoot(roots, vertex, c)].index
    {
      if c != e {
        assert c in prefix;
        var oc := OutRoot(roots, vertex, c);
        if o in s.best {
          var p := s.best[o];
          assert p in prefix;
          if oc != o {
            assert c.index != p.index;
          }
        }
      }
    }
    assert IndicesOf(cands) == IndicesOf(prefix) + {e.index};
  }

  lemma {:induction false} PruneKeepsOnlyCheapest(cands: seq<Edge>, roots: seq<nat>, vertex: nat)
    requires EndsBelow(cands, |roots|) && DistinctIndices(cands)
    ensures PruneOutcome(cands, roots, vertex, PruneScan(cands, roots, vertex, false))
    decreases |cands|
  {
    if cands != [] {
      var prefix := cands[..|cands| - 1];
      var e := cands[|cands| - 1];
      assert cands == prefix + [e];
      PruneKeepsOnlyCheapest(prefix, roots, vertex);
      var s := PruneScan(prefix, roots, vertex, false);
      DistinctLast(prefix, e);
      if Incident(roots, vertex, e) {
        PruneStepKeepsOutcome(prefix, e, roots, vertex, s);
      } else {
        PruneSkipKeepsOutcome(prefix, e, roots, vertex, s);
      }
    }
  }

  /** Distinct indices, seen as a set of edges: the last edge's index is fresh
      and no two edges before it share an index. */
  lemma DistinctLast(prefix: seq<Edge>, e: Edge)
    requires DistinctIndices(prefix + [e])
    ensures e.index !in IndicesOf(prefix)
    ensures forall c, d :: c in prefix && d in prefix && c.index == d.index ==> c == d
  {
    var cands := prefix + [e];
    forall c | c in prefix ensures c.index != e.index {
      var a :| 0 <= a < |prefix| && prefix[a] == c;
      assert cands[a] == c && cands[|prefix|] == e;
    }
    forall c, d | c in prefix && d in prefix && c.index == d.index ensures c == d {
      var a :| 0 <= a < |prefix| && prefix[a] == c;
      var b :| 0 <= b < |prefix| && prefix[b] == d;
      assert cands[a] == c && cands[b] == d;
    }
  }

  /** A candidate not incident to the vertex leaves the scan and its outcome alone. */
  lemma PruneSkipKeepsOutcome(prefix: seq<Edge>, e: Edge, roots: seq<nat>, vertex: nat, s: Scan)
    requires EndsBelow(prefix + [e], |roots|)
    requires PruneOutcome(prefix, roots, vertex, s)
    requires !Incident(roots, vertex, e)
    ensures PruneOutcome(prefix + [e], roots, vertex, s)
  {
    assert IndicesOf(prefix + [e]) == IndicesOf(prefix) + {e.index};
  }

  /** The discrepancy: three parallel edges of weights 5, 5, 3 towards the same
      root.  As written the second 5 survives beside the 3; the intended step
      keeps only the 3. */
  lemma PruneAsWrittenKeepsHeavierEdge()
    ensures var roots := [0, 1];
      var cands := [Edge(0, 1, 5, 0, None, false, false), Edge(0, 1, 5, 1, None, false, false), Edge(0, 1, 3, 2, None, false, false)];
      && PruneScan(cands, roots, 0, true).drop == [0, 0]
      && PruneScan(cands, roots, 0, true).best[1].index == 2
      && PruneScan(cands, roots, 0, false).drop == [0, 1]
  {
    var e0 := Edge(0, 1, 5, 0, None, false, false);
    var e1 := Edge(0, 1, 5, 1, None, false, false);
    var e2 := Edge(0, 1, 3, 2, None, false, false);
    PruneTrace(e0, e1, e2, true);
    PruneTrace(e0, e1, e2, false);
  }

  /** The scan of the three parallel edges of that discrepancy, step by step. */
  lemma PruneTrace(e0: Edge, e1: Edge, e2: Edge, asWritten: bool)
    requires e0 == Edge(0, 1, 5, 0, None, false, false)
    requires e1 == Edge(0, 1, 5, 1, None, false, false)
    requires e2 == Edge(0, 1, 3, 2, None, false, false)
    ensures PruneScan([e0, e1, e2], [0, 1], 0, asWritten) == Scan(map[1 := e2], if asWritten then [0, 0] else [0, 1])
  {
    var roots := [0, 1];
    var cands := [e0, e1, e2];
    assert cands[..2] == [e0, e1] && [e0, e1][..1] == [e0] && [e0][..0] == [];
    assert PruneScan([e0], roots, 0, asWritten) == Scan(map[1 := e0], []);
    assert PruneScan([e0, e1], roots, 0, asWritten) == Scan(map[1 := if asWritten then e0 else e1], [0]);
  }

  /** Only candidates' indices are ever scheduled for disabling. */
  lemma {:induction false} PruneScanDropBelow(cands: seq<Edge>, roots: seq<nat>, vertex: nat, n: nat)
    requires EndsBelow(cands, |roots|)
    requires forall e :: e in cands ==> e.index < n
    ensures forall a :: 0 <= a < |PruneScan(cands, roots, vertex, false).drop| ==> PruneScan(cands, roots, vertex, false).drop[a] < n
    ensures forall o :: o in PruneScan(cands, roots, vertex, false).best ==> PruneScan(cands, roots, vertex, false).best[o] in cands
    decreases |cands|
  {
    if cands != [] {
      var prefix := cands[..|cands| - 1];
      assert cands == prefix + [cands[|cands| - 1]];
      PruneScanDropBelow(prefix, roots, vertex, n);
    }
  }

  /** After pruning around `vertex`, each neighbouring root is joined to the
      subgraph of `vertex` by at most one active edge, and that edge is a
      lightest of the edges that were active between them. */
  lemma PruneLeavesOneLightestEdge(edges: seq<Edge>, active: seq<nat>, roots: seq<nat>, vertex: nat)
    requires forall k :: 0 <= k < |edges| ==> edges[k].index == k && edges[k].i < |roots| && edges[k].j < |roots|
    requires active == ActiveUpTo(edges, |edges|)
    ensures EndsBelow(EdgesAt(edges, active), |roots|)
    ensures var cands := EdgesAt(edges, active);
      var s := PruneScan(cands, roots, vertex, false);
      var left := RemoveEach(active, s.drop);
      && (forall x, y ::
            (x in left && y in left && Incident(roots, vertex, edges[x]) && Incident(roots, vertex, edges[y])
             && OutRoot(roots, vertex, edges[x]) == OutRoot(roots, vertex, edges[y])) ==> x == y)
      && (forall x, e ::
            (x in left && e in cands && Incident(roots, vertex, edges[x]) && Incident(roots, vertex, e)
             && OutRoot(roots, vertex, e) == OutRoot(roots, vertex, edges[x])) ==> edges[x].weight <= e.weight)
  {
    ActiveUpToExact(edges, |edges|);
    var cands := EdgesAt(edges, active);
    EdgesAtEndsBelow(edges, active, |roots|);
    CandsOfActive(edges, active);
    PruneKeepsOnlyCheapest(cands, roots, vertex);
  }

  /** The indices the prune around `vertex` disables, in order, for an indexed
      edge table whose ends lie below |roots|: the scan of its active edges. */
  ghost function PruneDrop(edges: seq<Edge>, roots: seq<nat>, vertex: nat): (r: seq<nat>)
    requires forall k :: 0 <= k < |edges| ==> edges[k].index == k && edges[k].i < |roots| && edges[k].j < |roots|
    ensures forall a :: 0 <= a < |r| ==> r[a] < |edges|
  {
    var active := ActiveUpTo(edges, |edges|);
    ActiveUpToExact(edges, |edges|);
    EdgesAtEndsBelow(edges, active, |roots|);
    CandsOfActive(edges, active);
    PruneScanDropBelow(EdgesAt(edges, active), roots, vertex, |edges|);
    PruneScan(EdgesAt(edges, active), roots, vertex, false).drop
  }

  /** `after` is the edge table `edges` once the parallel edges around
      `vertex` are pruned: exactly the dropped edges become disabled. */
  ghost predicate PrunedAround(edges: seq<Edge>, roots: seq<nat>, vertex: nat, after: seq<Edge>) {
    && (forall k :: 0 <= k < |edges| ==> edges[k].index == k && edges[k].i < |roots| && edges[k].j < |roots|)
    && after == DisableEach(edges, PruneDrop(edges, roots, vertex))
  }

  /** `EdgesView::ContractEdge` on the table: the edge is flagged contracted
      and disabled. */
  function ContractAt(edges: seq<Edge>, x: nat): (r: seq<Edge>)
    requires x < |edges|
    ensures |r| == |edges| && r[x].contracted && r[x].disabled
    ensures forall k :: 0 <= k < |edges| && k != x ==> r[k] == edges[k]
  {
    edges[x := edges[x].(contracted := true, disabled := true)]
  }

  /** The candidates at the active indices of an indexed edge list: their
      indices differ, every active index names one, and each is the edge at
      its own index. */
  lemma CandsOfActive(edges: seq<Edge>, active: seq<nat>)
    requires forall k :: 0 <= k < |edges| ==> edges[k].index == k
    requires forall a :: 0 <= a < |active| ==> active[a] < |edges|
    requires StrictlyIncreasing(active)
    ensures DistinctIndices(EdgesAt(edges, active))
    ensures forall x :: x in active ==> edges[x] in EdgesAt(edges, active)
    ensures forall e :: e in EdgesAt(edges, active) ==> e.index < |edges| && edges[e.index] == e
  {
    var cands := EdgesAt(edges, active);
    forall a, b | 0 <= a < b < |cands| ensures cands[a].index != cands[b].index {
      assert cands[a] == edges[active[a]] && cands[b] == edges[active[b]];
    }
    forall x | x in active ensures edges[x] in cands {
      var a :| 0 <= a < |active| && active[a] == x;
      assert cands[a] == edges[x];
    }
    forall e | e in cands ensures e.index < |edges| && edges[e.index] == e {
      var a :| 0 <= a < |cands| && cands[a] == e;
      assert e == edges[active[a]];
    }
  }

  /** Removes every listed index from the active list. */
  function RemoveEach(s: seq<nat>, drop: seq<nat>): (r: seq<nat>)
    ensures forall y :: y in r <==> y in s && y !in drop
  {
    if drop == [] then s
    else RemoveAll(RemoveEach(s, drop[..|drop| - 1]), drop[|drop| - 1])
  }

  /** Flags every listed edge disabled and leaves the others as they were. */
  function DisableEach(edges: seq<Edge>, drop: seq<nat>): (r: seq<Edge>)
    requires forall a :: 0 <= a < |drop| ==> drop[a] < |edges|
    ensures |r| == |edges|
    ensures forall k :: 0 <= k < |edges| ==> r[k] == if k in drop then edges[k].(disabled := true) else edges[k]
  {
    if drop == [] then edges
    else
      var x := drop[|drop| - 1];
      var before := DisableEach(edges, drop[..|drop| - 1]);
      assert forall k :: k in drop <==> k in drop[..|drop| - 1] || k == x by {
        assert drop == drop[..|drop| - 1] + [x];
      }
      before[x := before[x].(disabled := true)]
  }

  lemma DisableEachStep(edges: seq<Edge>, active: seq<nat>, drop: seq<nat>, d: nat)
    requires d < |drop| && forall a :: 0 <= a < |drop| ==> drop[a] < |edges|
    ensures DisableEach(edges, drop[..d + 1]) ==
      DisableEach(edges, drop[..d])[drop[d] := DisableEach(edges, drop[..d])[drop[d]].(disabled := true)]
    ensures RemoveEach(active, drop[..d + 1]) == RemoveAll(RemoveEach(active, drop[..d]), drop[d])
  {
    assert drop[..d + 1][..d] == drop[..d];
  }

  /** The candidates of a scan: the edges at the given active indices. */
  lemma EdgesAtStep(edges: seq<Edge>, act: seq<nat>, k: nat)
    requires k < |act| && forall a :: 0 <= a < |act| ==> act[a] < |edges|
    ensures EdgesAt(edges, act[..k + 1]) == EdgesAt(edges, act[..k]) + [edges[act[k]]]
  {
  }

  /** The scan over one more active edge offers it to both of its ends. */
  lemma ScanAdvance(edges: seq<Edge>, act: seq<nat>, k: nat, n: nat)
    requires k < |act| && forall a :: 0 <= a < |act| ==> act[a] < |edges|
    requires forall x :: 0 <= x < |edges| ==> edges[x].i < edges[x].j < n
    ensures EndsBelow(EdgesAt(edges, act[..k]), n) && EndsBelow(EdgesAt(edges, act[..k + 1]), n)
    ensures var e := edges[act[k]];
      CheapestScan(EdgesAt(edges, act[..k + 1]), n) == Offer(Offer(CheapestScan(EdgesAt(edges, act[..k]), n), e.i, e), e.j, e)
  {
    EdgesAtStep(edges, act, k);
    assert EdgesAt(edges, act[..k + 1])[..k] == EdgesAt(edges, act[..k]);
    EdgesAtEndsBelow(edges, act[..k], n);
    EdgesAtEndsBelow(edges, act[..k + 1], n);
  }

  lemma EdgesAtEndsBelow(edges: seq<Edge>, act: seq<nat>, n: nat)
    requires forall a :: 0 <= a < |act| ==> act[a] < |edges|
    requires forall k :: 0 <= k < |edges| ==> edges[k].i < n && edges[k].j < n
    ensures EndsBelow(EdgesAt(edges, act), n)
  {
    var cands := EdgesAt(edges, act);
    forall e | e in cands ensures e.i < n && e.j < n {
      var a :| 0 <= a < |cands| && cands[a] == e;
      assert e == edges[act[a]];
    }
  }

  // ---------------------------------------------------------------------------
  // The matrix constructor's edge list
  // ---------------------------------------------------------------------------

  ghost predicate Square(a: seq<seq<uint32>>) {
    forall r :: 0 <= r < |a| ==> |a[r]| == |a|
  }

  /** std::max */
  function Heavier(x: uint32, y: uint32): (m: uint32)
    ensures m >= x && m >= y && (m == x || m == y)
  {
    if x < y then y else x
  }

  function MaxWeight(a: seq<seq<uint32>>, x: nat, y: nat): uint32
    requires Square(a) && x < |a| && y < |a|
  {
    Heavier(a[x][y], a[y][x])
  }

  /** The edges row i contributes for columns below m: (column, row, weight)
      for every non-zero weight, by increasing column. */
  function RowEntries(a: seq<seq<uint32>>, i: nat, m: nat): (r: seq<(nat, nat, uint32)>)
    requires Square(a) && i < |a| && m <= i
    ensures |r| <= m
  {
    if m == 0 then []
    else
      var w := MaxWeight(a, i, m - 1);
      var before := RowEntries(a, i, m - 1);
      if w == 0 then before else before + [(m - 1, i, w)]
  }

  /** Row i's entries up to column m are exactly the columns c < m with a
      non-zero weight, in increasing column order. */
  lemma {:induction false} RowEntriesExact(a: seq<seq<uint32>>, i: nat, m: nat)
    requires Square(a) && i < |a| && m <= i
    ensures forall t :: t in RowEntries(a, i, m) ==> t.0 < m && t.1 == i && t.2 == MaxWeight(a, i, t.0) && t.2 != 0
    ensures forall c :: 0 <= c < m && MaxWeight(a, i, c) != 0 ==> (c, i, MaxWeight(a, i, c)) in RowEntries(a, i, m)
    ensures forall k, l :: 0 <= k < l < |RowEntries(a, i, m)| ==> RowEntries(a, i, m)[k].0 < RowEntries(a, i, m)[l].0
  {
    if m > 0 {
      RowEntriesExact(a, i, m - 1);
      var before := RowEntries(a, i, m - 1);
      assert forall k :: 0 <= k < |before| ==> before[k] in before;
    }
  }

  /** The entries of the first n rows, row by row. */
  function MatrixEntries(a: seq<seq<uint32>>, n: nat): (r: seq<(nat, nat, uint32)>)
    requires Square(a) && n <= |a|
    ensures |r| <= n * n
  {
    if n == 0 then [] else MatrixEntries(a, n - 1) + RowEntries(a, n - 1, n - 1)
  }

  /** The constructor's entries are exactly the pairs lo < hi whose larger
      weight max(a[hi][lo], a[lo][hi]) is non-zero. */
  lemma {:induction false} MatrixEntriesExact(a: seq<seq<uint32>>, n: nat)
    requires Square(a) && n <= |a|
    ensures forall t :: t in MatrixEntries(a, n) ==> t.0 < t.1 < n && t.2 == MaxWeight(a, t.1, t.0) && t.2 != 0
    ensures forall lo, hi :: 0 <= lo < hi < n && MaxWeight(a, hi, lo) != 0 ==>
      (lo, hi, MaxWeight(a, hi, lo)) in MatrixEntries(a, n)
  {
    if n > 0 {
      MatrixEntriesExact(a, n - 1);
      RowEntriesExact(a, n - 1, n - 1);
    }
  }

  /** No pair of vertices is listed twice. */
  lemma {:induction false} MatrixEntriesDistinct(a: seq<seq<uint32>>, n: nat)
    requires Square(a) && n <= |a|
    ensures forall k, l :: 0 <= k < l < |MatrixEntries(a, n)| ==>
      (MatrixEntries(a, n)[k].0, MatrixEntries(a, n)[k].1) != (MatrixEntries(a, n)[l].0, MatrixEntries(a, n)[l].1)
  {
    if n > 0 {
      MatrixEntriesDistinct(a, n - 1);
      MatrixEntriesBelow(a, n - 1);
      RowEntriesExact(a, n - 1, n - 1);
      var before := MatrixEntries(a, n - 1);
      var row := RowEntries(a, n - 1, n - 1);
      var all := before + row;
      forall k, l | 0 <= k < l < |all|
        ensures (all[k].0, all[k].1) != (all[l].0, all[l].1)
      {
        if k >= |before| {
          assert all[k] == row[k - |before|] && all[l] == row[l - |before|];
        } else if l >= |before| {
          assert all[l] == row[l - |before|];
          assert row[l - |before|] in row;
        }
      }
    }
  }

  lemma {:induction false} MatrixEntriesBelow(a: seq<seq<uint32>>, n: nat)
    requires Square(a) && n <= |a|
    ensures forall k :: 0 <= k < |MatrixEntries(a, n)| ==> MatrixEntries(a, n)[k].1 < n
  {
    if n > 0 {
      MatrixEntriesBelow(a, n - 1);
      RowEntriesExact(a, n - 1, n - 1);
      var before := MatrixEntries(a, n - 1);
      var row := RowEntries(a, n - 1, n - 1);
      var all := before + row;
      forall k | |before| <= k < |all| ensures all[k].1 < n {
        assert all[k] == row[k - |before|];
        assert row[k - |before|] in row;
      }
    }
  }

  // ---------------------------------------------------------------------------
  // Boruvka's choice of cheapest edges
  // ---------------------------------------------------------------------------

  /** Offers edge e to one endpoint: it replaces the current choice only when
      strictly lighter. */
  function Offer(cheapest: seq<Option<Edge>>, v: nat, e: Edge): (r: seq<Option<Edge>>)
    requires v < |cheapest|
    ensures |r| == |cheapest|
  {
    if cheapest[v].None? || EdgeLess(e, cheapest[v].value) then cheapest[v := Some(e)] else cheapest
  }

  /** The cheapest edge per original endpoint over the candidates, the first one
      among equal weights. */
  function CheapestScan(cands: seq<Edge>, n: nat): (r: seq<Option<Edge>>)
    requires EndsBelow(cands, n)
    ensures |r| == n
  {
    if cands == [] then seq(n, v => None)
    else
      var c := CheapestScan(cands[..|cands| - 1], n);
      var e := cands[|cands| - 1];
      if e.i == e.j then c else Offer(Offer(c, e.i, e), e.j, e)
  }

  predicate Touches(e: Edge, v: nat) {
    e.i == v || e.j == v
  }

  /** `choice` is what Boruvka should pick for v among `cands`: nothing iff no
      candidate touches v, else a touching candidate of least weight. */
  ghost predicate CheapestFor(cands: seq<Edge>, v: nat, choice: Option<Edge>) {
    && (choice.None? <==> forall e :: e in cands ==> !Touches(e, v))
    && (choice.Some? ==>
          && choice.value in cands && Touches(choice.value, v)
          && forall e :: e in cands && Touches(e, v) ==> choice.value.weight <= e.weight)
  }

  lemma OfferKeepsCheapest(cands: seq<Edge>, cheapest: seq<Option<Edge>>, x: nat, e: Edge, v: nat)
    requires x < |cheapest| && v < |cheapest|
    requires CheapestFor(cands, v, cheapest[v])
    requires x == v ==> Touches(e, v)
    requires x != v ==> CheapestFor(cands + [e], v, cheapest[v])
    ensures CheapestFor(cands + [e], v, Offer(cheapest, x, e)[v])
  {
    if x == v {
      var r := Offer(cheapest, x, e);
      assert r[v] == Some(e) || r[v] == cheapest[v];
    }
  }

  /** Each vertex's choice is a touching candidate of least weight, and a vertex
      has no choice iff no candidate touches it. */
  lemma {:induction false} CheapestScanIsCheapest(cands: seq<Edge>, n: nat)
    requires EndsBelow(cands, n)
    requires forall e :: e in cands ==> e.i != e.j
    ensures forall v :: 0 <= v < n ==> CheapestFor(cands, v, CheapestScan(cands, n)[v])
    decreases |cands|
  {
    if cands != [] {
      var prefix := cands[..|cands| - 1];
      var e := cands[|cands| - 1];
      assert cands == prefix + [e];
      CheapestScanIsCheapest(prefix, n);
      var c := CheapestScan(prefix, n);
      var c1 := Offer(c, e.i, e);
      forall v | 0 <= v < n ensures CheapestFor(cands, v, CheapestScan(cands, n)[v]) {
        if !Touches(e, v) {
          assert CheapestFor(cands, v, c[v]);
          assert c1[v] == c[v];
        } else if v == e.i {
          OfferKeepsCheapest(prefix, c, e.i, e, v);
          assert e.j != v;
          assert Offer(c1, e.j, e)[v] == c1[v];
        } else {
          assert c1[v] == c[v];
          OfferKeepsCheapest(prefix, c1, e.j, e, v);
        }
      }
    } else {
      assert forall v :: 0 <= v < n ==> CheapestScan(cands, n)[v].None?;
    }
  }

  // ---------------------------------------------------------------------------
  // The graph
  // ---------------------------------------------------------------------------

  class Graph {
    const view: EdgesView
    var subgraphs: seq<Member>
    ghost var height: seq<nat>

    /** The edge table is well formed, the members form a forest, every edge
        joins two distinct vertices lo < hi, contracted edges lie inside one
        subgraph, and roots plus contracted edges account for every vertex. */
    ghost predicate Valid()
      reads this, view
    {
      view.Valid() && Consistent(subgraphs, height, view.edges)
    }

    /** `GetCurrentSubgraphs` of an edge: the roots of its endpoints. */
    function CurrentSubgraphs(e: Edge): (r: (nat, nat))
      reads this
      requires Forest(subgraphs, height) && e.i < |subgraphs| && e.j < |subgraphs|
      ensures r.0 < |subgraphs| && r.1 < |subgraphs|
      ensures subgraphs[r.0].IsRoot() && subgraphs[r.1].IsRoot()
    {
      (Root(subgraphs, height, e.i), Root(subgraphs, height, e.j))
    }

    /** `GetVertexesCount`: the number of roots. */
    function VertexesCount(): (r: nat)
      reads this, view
      requires Valid()
      ensures r == |subgraphs| - CountIf(view.edges, IsContracted)
    {
      CountIf(subgraphs, IsRootMember)
    }

    /** `GetEdgesCount`: active edges that are not contracted; every active edge
        is uncontracted, so this is the length of the active list. */
    function EdgesCount(): (r: nat)
      reads this, view
      requires Valid()
      ensures r == |view.active|
    {
      var visited := view.Visit();
      assert forall k :: 0 <= k < |visited| ==> NotContracted(visited[k]) by {
        ActiveUpToExact(view.edges, |view.edges|);
        forall k | 0 <= k < |visited| ensures NotContracted(visited[k]) {
          assert view.active[k] in view.active;
        }
      }
      CountIfAll(visited, NotContracted);
      CountIf(visited, NotContracted)
    }

    /** `GetMST`: the original endpoints of the contracted edges, in table order. */
    function Mst(): (r: seq<(nat, nat)>)
      reads this, view
      requires Valid()
      ensures |r| == CountIf(view.edges, IsContracted)
    {
      ContractedEnds(view.Original())
    }

    constructor Empty()
      ensures Valid() && fresh(view) && |subgraphs| == 0 && |view.edges| == 0
    {
      view := new EdgesView();
      subgraphs := [];
      height := [];
      ConsistentEmpty();
    }

    /** `Graph(adjacency)`: one singleton subgraph per row and, for each j < i,
        an edge {j, i} weighted max(a[i][j], a[j][i]) unless that is zero. */
    constructor (adjacency: seq<seq<uint32>>)
      requires Square(adjacency)
      ensures Valid() && fresh(view)
      ensures |subgraphs| == |adjacency| && VertexesCount() == |adjacency|
      ensures view.edges == Table(MatrixEntries(adjacency, |adjacency|))
    {
      view := new EdgesView();
      subgraphs := [];
      height := [];
      ConsistentEmpty();
      new;
      AddRows(adjacency);
    }

    /** The constructor's outer loop: a vertex and its row of edges per index. */
    method AddRows(adjacency: seq<seq<uint32>>)
      requires Square(adjacency)
      requires Valid() && subgraphs == [] && view.edges == []
      modifies this, view
      ensures Valid()
      ensures |subgraphs| == |adjacency| && VertexesCount() == |adjacency|
      ensures view.edges == Table(MatrixEntries(adjacency, |adjacency|))
    {
      var i := 0;
      while i < |adjacency|
        invariant 0 <= i <= |adjacency|
        invariant Valid() && |subgraphs| == i
        invariant view.edges == Table(MatrixEntries(adjacency, i))
      {
        AddVertex();
        AddRow(adjacency, i);
        i := i + 1;
      }
      TableUncontracted(MatrixEntries(adjacency, |adjacency|));
    }

    /** One pass of the constructor's inner loop: row i's edges to columns j < i. */
    method AddRow(adjacency: seq<seq<uint32>>, i: nat)
      requires Square(adjacency) && i < |adjacency|
      requires Valid() && |subgraphs| == i + 1
      requires view.edges == Table(MatrixEntries(adjacency, i))
      modifies view
      ensures Valid() && subgraphs == old(subgraphs)
      ensures view.edges == Table(MatrixEntries(adjacency, i + 1))
    {
      var j := 0;
      while j < i
        invariant 0 <= j <= i
        invariant Valid() && subgraphs == old(subgraphs)
        invariant view.edges == Table(MatrixEntries(adjacency, i) + RowEntries(adjacency, i, j))
      {
        AddEntry(adjacency, i, j);
        j := j + 1;
      }
    }

    /** One step of the inner loop: the entry at row i, column j < i. */
    method AddEntry(adjacency: seq<seq<uint32>>, i: nat, j: nat)
      requires Square(adjacency) && j < i < |adjacency|
      requires Valid() && |subgraphs| == i + 1
      requires view.edges == Table(MatrixEntries(adjacency, i) + RowEntries(adjacency, i, j))
      modifies view
      ensures Valid() && subgraphs == old(subgraphs)
      ensures view.edges == Table(MatrixEntries(adjacency, i) + RowEntries(adjacency, i, j + 1))
    {
      var w := Heavier(adjacency[i][j], adjacency[j][i]);
      ghost var listed := MatrixEntries(adjacency, i) + RowEntries(adjacency, i, j);
      AddEdge(i, j, w);
      RowEntriesStep(adjacency, i, j, MatrixEntries(adjacency, i));
      if w != 0 {
        TableAppend(listed, (j, i, w));
      }
    }

    /** The representative of every vertex. */
    ghost function Roots(): (r: seq<nat>)
      reads this, view
      requires Valid()
      ensures |r| == |subgraphs|
    {
      RootsOf(subgraphs, height)
    }

    /** The intended outcome of pruning the parallel edges around `vertex`: the
        scan of the active edges in list order. */
    ghost function PruneFor(vertex: nat): (r: Scan)
      reads this, view
      requires Valid()
      ensures forall a :: 0 <= a < |r.drop| ==> r.drop[a] < |view.edges|
    {
      ActiveUpToExact(view.edges, |view.edges|);
      EdgesAtEndsBelow(view.edges, view.active, |subgraphs|);
      PruneScanDropBelow(view.Visit(), Roots(), vertex, |view.edges|);
      PruneScan(view.Visit(), Roots(), vertex, false)
    }

    /** `RemoveMultipleEdgesForVertex`: of the active edges between the subgraph
        of `vertex` and another subgraph (or itself), only the lightest -- the
        latest on equal weights -- stays active. */
    method RemoveMultipleEdgesForVertex(vertex: nat)
      requires Valid()
      modifies view
      ensures Valid()
      ensures PrunedAround(old(view.edges), old(Roots()), vertex, view.edges)
      ensures view.active == RemoveEach(old(view.active), old(PruneFor(vertex)).drop)
      ensures SameEdges(old(view.edges), view.edges) && VertexesCount() == old(VertexesCount())
      ensures forall k :: 0 <= k < |view.edges| ==> view.edges[k].contracted == old(view.edges[k].contracted)
      ensures Roots() == old(Roots())
    {
      var drop := ScanParallelEdges(vertex);
      assert drop == PruneDrop(view.edges, Roots(), vertex);
      DisableEachKeepsEdges(view.edges, drop);
      DisableAll(drop);
    }

    /** The first loop of `RemoveMultipleEdgesForVertex`: the cheapest edge so
        far towards each neighbouring root, and the indices to disable. */
    method ScanParallelEdges(vertex: nat) returns (drop: seq<nat>)
      requires Valid()
      ensures drop == PruneFor(vertex).drop
    {
      ghost var roots := Roots();
      var act := view.active;
      var best: map<nat, Edge> := map[];
      drop := [];
      var k := 0;
      while k < |act|
        invariant k <= |act|
        invariant EndsBelow(EdgesAt(view.edges, act[..k]), |roots|)
        invariant Scan(best, drop) == PruneScan(EdgesAt(view.edges, act[..k]), roots, vertex, false)
      {
        var e := view.edges[act[k]];
        EdgesAtStep(view.edges, act, k);
        EdgesAtEndsBelow(view.edges, act[..k + 1], |subgraphs|);
        var ends := CurrentSubgraphs(e);
        if ends.0 == vertex || ends.1 == vertex {
          var out := if ends.0 == vertex then ends.1 else ends.0;
          if out !in best {
            best := best[out := e];
          } else {
            var p := best[out];
            drop := drop + [if EdgeLess(p, e) then e.index else p.index];
            best := best[out := if EdgeLess(p, e) then p else e];
          }
        }
        k := k + 1;
      }
      assert act[..k] == act;
    }

    /** The second loop of `RemoveMultipleEdgesForVertex`: disables each
        listed edge. */
    method DisableAll(drop: seq<nat>)
      requires Valid() && forall a :: 0 <= a < |drop| ==> drop[a] < |view.edges|
      modifies view
      ensures Valid()
      ensures view.edges == DisableEach(old(view.edges), drop)
      ensures view.active == RemoveEach(old(view.active), drop)
    {
      var d := 0;
      while d < |drop|
        invariant d <= |drop| && Valid()
        invariant view.edges == DisableEach(old(view.edges), drop[..d])
        invariant view.active == RemoveEach(old(view.active), drop[..d])
      {
        DisableNext(old(view.edges), old(view.active), drop, d);
        d := d + 1;
      }
      assert drop[..d] == drop;
    }

    /** One turn of `DisableAll`: the d-th listed edge is disabled. */
    method DisableNext(ghost edges0: seq<Edge>, ghost active0: seq<nat>, drop: seq<nat>, d: nat)
      requires d < |drop| && forall a :: 0 <= a < |drop| ==> drop[a] < |edges0|
      requires Valid() && view.edges == DisableEach(edges0, drop[..d]) && view.active == RemoveEach(active0, drop[..d])
      modifies view
      ensures Valid()
      ensures view.edges == DisableEach(edges0, drop[..d + 1]) && view.active == RemoveEach(active0, drop[..d + 1])
    {
      DisableEachStep(edges0, active0, drop, d);
      ConsistentDisable(subgraphs, height, view.edges, drop[d]);
      view.DisableEdge(drop[d]);
    }

    /** `ContractEdge`: when the edge joins two different subgraphs, the root of
        one is hung under the root of the other (the second under the first
        unless the first has the lower rank), the edge is contracted, and the
        parallel edges around the merged root are pruned. */
    method ContractEdge(edgeIndex: nat)
      requires Valid() && edgeIndex < |view.edges|
      modifies this, view
      ensures Valid()
      ensures |subgraphs| == old(|subgraphs|) && SameEdges(old(view.edges), view.edges)
      ensures old(Roots()[view.edges[edgeIndex].i] == Roots()[view.edges[edgeIndex].j]) ==>
        && subgraphs == old(subgraphs) && Roots() == old(Roots())
        && view.edges == old(view.edges) && view.active == old(view.active)
      ensures old(Roots()[view.edges[edgeIndex].i] != Roots()[view.edges[edgeIndex].j]) ==>
        && VertexesCount() + 1 == old(VertexesCount())
        && PrunedAround(ContractAt(old(view.edges), edgeIndex), Roots(), Roots()[old(view.edges[edgeIndex].i)], view.edges)
      ensures forall k :: 0 <= k < |view.edges| ==>
        view.edges[k].contracted == (old(view.edges[k].contracted) ||
          (k == edgeIndex && old(Roots()[view.edges[edgeIndex].i] != Roots()[view.edges[edgeIndex].j])))
      ensures Merged(old(Roots()), Roots(), old(view.edges[edgeIndex]))
    {
      var e := view.edges[edgeIndex];
      var ends := CurrentSubgraphs(e);
      var i, j := ends.0, ends.1;
      if MemberSame(subgraphs[i], subgraphs[j]) {
        RelinkMerges(Roots(), e, i, i);
        return;
      }
      var child, top := j, i;
      if MemberLess(subgraphs[i], subgraphs[j]) {
        child, top := i, j;
      }
      MergeAndPrune(edgeIndex, child, top, i);
    }

    /** The second half of `ContractEdge`, once the two roots differ: link,
        contract, and prune around the merged root, reached from end `i`. */
    method MergeAndPrune(edgeIndex: nat, child: nat, top: nat, i: nat)
      requires Valid() && edgeIndex < |view.edges|
      requires child < |subgraphs| && top < |subgraphs| && child != top && (i == child || i == top)
      requires subgraphs[child].IsRoot() && subgraphs[top].IsRoot()
      requires var roots, e := Roots(), view.edges[edgeIndex];
        (roots[e.i] == child && roots[e.j] == top) || (roots[e.i] == top && roots[e.j] == child)
      modifies this, view
      ensures Valid()
      ensures |subgraphs| == old(|subgraphs|) && SameEdges(old(view.edges), view.edges)
      ensures VertexesCount() + 1 == old(VertexesCount())
      ensures PrunedAround(ContractAt(old(view.edges), edgeIndex), Roots(), Roots()[old(view.edges[edgeIndex].i)], view.edges)
      ensures forall k :: 0 <= k < |view.edges| ==> view.edges[k].contracted == (old(view.edges[k].contracted) || k == edgeIndex)
      ensures Merged(old(Roots()), Roots(), old(view.edges[edgeIndex]))
    {
      ghost var before, edges0, e := Roots(), view.edges, view.edges[edgeIndex];
      LinkAndContract(edgeIndex, child, top);
      RelinkMerges(before, e, child, top);
      assert subgraphs[i].parent == top == Roots()[e.i];
      RemoveMultipleEdgesForVertex(subgraphs[i].parent);
      SameEdgesAfterContract(edges0, edgeIndex, view.edges);
    }

    /** The middle of `ContractEdge`: `child`'s root record points to `top` and
        the edge is flagged contracted and disabled. */
    method LinkAndContract(edgeIndex: nat, child: nat, top: nat)
      requires Valid() && edgeIndex < |view.edges|
      requires child < |subgraphs| && top < |subgraphs| && child != top
      requires subgraphs[child].IsRoot() && subgraphs[top].IsRoot()
      requires var roots, e := Roots(), view.edges[edgeIndex];
        (roots[e.i] == child && roots[e.j] == top) || (roots[e.i] == top && roots[e.j] == child)
      modifies this, view
      ensures view.edges == ContractAt(old(view.edges), edgeIndex)
      ensures Valid()
      ensures subgraphs == old(subgraphs)[child := old(subgraphs)[child].SetParent(top)]
      ensures Roots() == Relink(old(Roots()), child, top)
      ensures VertexesCount() + 1 == old(VertexesCount())
    {
      ghost var subs, tall, edges := subgraphs, height, view.edges;
      ghost var edges1 := edges[edgeIndex := edges[edgeIndex].(contracted := true, disabled := true)];
      var parent := subgraphs[top].parent;
      var linked := subgraphs[child := subgraphs[child].SetParent(parent)];
      ghost var raised := tall[top := MaxOf(tall) + 1];
      ContractState(subs, tall, edges, edgeIndex, child, top, linked, raised, edges1);
      view.ContractEdge(edgeIndex);
      subgraphs, height := linked, raised;
    }

    /** The choice of `BoruvkaPhase`'s first loop: per vertex, the lightest
        active edge with that vertex as an original endpoint. */
    ghost function Choice(): (r: seq<Option<Edge>>)
      reads this, view
      requires Valid()
      ensures |r| == |subgraphs|
      ensures forall v :: 0 <= v < |r| && r[v].Some? ==> r[v].value.i < |subgraphs| && r[v].value.j < |subgraphs|
    {
      ActiveUpToExact(view.edges, |view.edges|);
      EdgesAtEndsBelow(view.edges, view.active, |subgraphs|);
      var cands := view.Visit();
      assert forall e :: e in cands ==> e.i != e.j by {
        forall e | e in cands ensures e.i != e.j {
          var a :| 0 <= a < |cands| && cands[a] == e;
          assert view.active[a] in view.active;
        }
      }
      CheapestScanIsCheapest(cands, |subgraphs|);
      CheapestScan(cands, |subgraphs|)
    }

    /** `BoruvkaPhase`: every vertex picks its lightest active edge (the first
        among equal weights), then each picked edge is contracted in vertex
        order. */
    method BoruvkaPhase() returns (ghost rounds: seq<seq<nat>>)
      requires Valid()
      modifies this, view
      ensures Valid()
      ensures |subgraphs| == old(|subgraphs|) && SameEdges(old(view.edges), view.edges)
      ensures Coarser(old(Roots()), Roots())
      ensures Joined(Roots(), old(Choice()))
      ensures VertexesCount() <= old(VertexesCount())
      ensures |rounds| == |subgraphs| + 1 && rounds[0] == old(Roots()) && rounds[|subgraphs|] == Roots()
      ensures forall v :: 0 <= v < |subgraphs| ==> Step(rounds[v], rounds[v + 1], old(Choice())[v])
      ensures forall k :: 0 <= k < |view.edges| ==>
        (view.edges[k].contracted <==> old(view.edges[k].contracted) || ContractedIn(rounds, old(Choice()), k))
    {
      var cheapest := ChooseCheapest();
      ghost var chosen := Choice();
      ghost var edges0, roots0, count0 := view.edges, Roots(), VertexesCount();
      rounds := [roots0];
      var v := 0;
      assert chosen[..0] == [];
      while v < |cheapest|
        invariant v <= |cheapest| && Phase(cheapest, v, chosen, rounds, edges0)
        invariant rounds[0] == roots0 && VertexesCount() <= count0
      {
        rounds := PhaseStep(cheapest, v, chosen, rounds, edges0);
        v := v + 1;
      }
      assert chosen[..v] == chosen;
    }

    /** The state of `BoruvkaPhase`'s second loop before vertex v: the edges
        keep their ends and weights, `rounds` holds the partition before each
        earlier turn and now, each turn merged the two subgraphs of its choice
        when they differed, and exactly those choices have become contracted. */
    ghost predicate Phase(cheapest: seq<Option<nat>>, v: nat, chosen: seq<Option<Edge>>,
                          rounds: seq<seq<nat>>, edges0: seq<Edge>)
      reads this, view
    {
      && Valid() && v <= |cheapest| == |subgraphs|
      && Picks(cheapest, edges0, chosen)
      && (forall k :: 0 <= k < |edges0| ==> edges0[k].index == k)
      && SameEdges(edges0, view.edges)
      && Trace(rounds, chosen, v, edges0, view.edges) && rounds[v] == Roots()
      && Coarser(rounds[0], Roots()) && Joined(Roots(), chosen[..v])
    }

    /** One turn of `BoruvkaPhase`'s second loop: the choice of vertex v, if
        any, is contracted; subgraphs only grow, so every earlier choice stays
        inside one subgraph, and so does this one. */
    method PhaseStep(cheapest: seq<Option<nat>>, v: nat, ghost chosen: seq<Option<Edge>>,
                     ghost rounds: seq<seq<nat>>, ghost edges0: seq<Edge>) returns (ghost rounds': seq<seq<nat>>)
      requires v < |cheapest| && Phase(cheapest, v, chosen, rounds, edges0)
      modifies this, view
      ensures Valid() && rounds' == rounds + [Roots()]
      ensures Phase(cheapest, v + 1, chosen, rounds', edges0)
      ensures VertexesCount() <= old(VertexesCount())
    {
      ResolveAt(cheapest, edges0, v);
      ghost var before, flags := Roots(), view.edges;
      if cheapest[v].Some? {
        var x := cheapest[v].value;
        ghost var e := view.edges[x];
        ContractEdge(x);
        MergedCoarser(before, Roots(), e);
        CoarserTrans(rounds[0], before, Roots());
        CoarserKeepsJoined(before, Roots(), chosen[..v]);
        ContractTurn(rounds, Roots(), chosen, v, edges0, flags, view.edges, x);
      } else {
        SkipTurn(rounds, chosen, v, edges0, flags);
      }
      rounds' := rounds + [Roots()];
      JoinedStep(Roots(), chosen, v);
    }

    /** The first loop of `BoruvkaPhase`: the index of the lightest active edge
        per original endpoint, `None` where no active edge touches the vertex. */
    method ChooseCheapest() returns (cheapest: seq<Option<nat>>)
      requires Valid()
      ensures |cheapest| == |subgraphs|
      ensures forall v :: 0 <= v < |cheapest| && cheapest[v].Some? ==> cheapest[v].value < |view.edges|
      ensures Resolve(cheapest, view.edges) == Choice()
    {
      var n := |subgraphs|;
      var act := view.active;
      ActiveUpToExact(view.edges, |view.edges|);
      cheapest := seq(n, v => None);
      var k := 0;
      while k < |act|
        invariant k <= |act| && |cheapest| == n
        invariant forall v :: 0 <= v < n && cheapest[v].Some? ==> cheapest[v].value < |view.edges|
        invariant EndsBelow(EdgesAt(view.edges, act[..k]), n)
        invariant Resolve(cheapest, view.edges) == CheapestScan(EdgesAt(view.edges, act[..k]), n)
      {
        cheapest := ScanStep(cheapest, act, k);
        k := k + 1;
      }
      assert act[..k] == act;
    }

    /** One turn of the scan: the active edge at position k is offered to
        both of its endpoints. */
    method ScanStep(cheapest: seq<Option<nat>>, act: seq<nat>, k: nat) returns (r: seq<Option<nat>>)
      requires Valid() && act == view.active && k < |act| && |cheapest| == |subgraphs|
      requires forall v :: 0 <= v < |cheapest| && cheapest[v].Some? ==> cheapest[v].value < |view.edges|
      requires Resolve(cheapest, view.edges) == CheapestScan(EdgesAt(view.edges, act[..k]), |subgraphs|)
      requires EndsBelow(EdgesAt(view.edges, act[..k]), |subgraphs|)
      ensures |r| == |subgraphs|
      ensures forall v :: 0 <= v < |r| && r[v].Some? ==> r[v].value < |view.edges|
      ensures EndsBelow(EdgesAt(view.edges, act[..k + 1]), |subgraphs|)
      ensures Resolve(r, view.edges) == CheapestScan(EdgesAt(view.edges, act[..k + 1]), |subgraphs|)
    {
      var e := view.edges[act[k]];
      ScanAdvance(view.edges, act, k, |subgraphs|);
      r := OfferIndex(cheapest, e.i, e);
      r := OfferIndex(r, e.j, e);
    }

    /** The inner loop body of `BoruvkaPhase`'s scan: edge e becomes v's choice
        when v has none or e is strictly lighter than the current one. */
    method OfferIndex(cheapest: seq<Option<nat>>, v: nat, e: Edge) returns (r: seq<Option<nat>>)
      requires v < |cheapest| && e.index < |view.edges| && view.edges[e.index] == e
      requires forall w :: 0 <= w < |cheapest| && cheapest[w].Some? ==> cheapest[w].value < |view.edges|
      ensures |r| == |cheapest|
      ensures forall w :: 0 <= w < |r| && r[w].Some? ==> r[w].value < |view.edges|
      ensures Resolve(r, view.edges) == Offer(Resolve(cheapest, view.edges), v, e)
    {
      r := cheapest;
      if cheapest[v].None? || EdgeLess(e, view.edges[cheapest[v].value]) {
        r := cheapest[v := Some(e.index)];
      }
    }

    /** `m_subgraphs.emplace_back(i)`: a new singleton subgraph. */
    method AddVertex()
      requires Valid()
      modifies this
      ensures Valid()
      ensures subgraphs == old(subgraphs) + [NewMember(|old(subgraphs)|, 0)]
      ensures view.edges == old(view.edges) && view.active == old(view.active)
    {
      ConsistentAddVertex(subgraphs, height, view.edges);
      subgraphs := subgraphs + [NewMember(|subgraphs|, 0)];
      height := height + [0];
    }

    /** `AddEdge`: ignores self-loops and zero weights, otherwise adds {min, max}. */
    method AddEdge(begin: nat, end: nat, weight: uint32)
      requires Valid() && begin < |subgraphs| && end < |subgraphs|
      modifies view
      ensures Valid()
      ensures begin == end || weight == 0 ==> view.edges == old(view.edges)
      ensures begin != end && weight != 0 ==>
        view.edges == old(view.edges) + [NewEdge(if begin <= end then begin else end, if begin <= end then end else begin, weight, |old(view.edges)|)]
    {
      if begin == end || weight == 0 {
        return;
      }
      var lo, hi := if begin <= end then begin else end, if begin <= end then end else begin;
      ConsistentAddEdge(subgraphs, height, view.edges, NewEdge(lo, hi, weight, |view.edges|));
      view.AddEdge(lo, hi, weight);
    }
  }

  /** The value part of the graph's invariant: the members form a forest, every
      edge joins two vertices lo < hi, contracted edges lie inside one subgraph,
      and roots plus contracted edges account for every vertex. */
  ghost predicate Consistent(subs: seq<Member>, height: seq<nat>, edges: seq<Edge>) {
    && EdgesInside(subs, height, edges)
    && CountIf(subs, IsRootMember) + CountIf(edges, IsContracted) == |subs|
  }

  /** The members form a forest, every edge joins two members, and each
      contracted edge lies inside one subgraph. */
  ghost predicate EdgesInside(subs: seq<Member>, height: seq<nat>, edges: seq<Edge>) {
    && Forest(subs, height)
    && (forall k :: 0 <= k < |edges| ==> edges[k].i < edges[k].j < |subs|)
    && (forall k :: 0 <= k < |edges| && edges[k].contracted ==>
          RootsOf(subs, height)[edges[k].i] == RootsOf(subs, height)[edges[k].j])
  }

  lemma ConsistentEmpty()
    ensures Consistent([], [], [])
  {
    assert CountIf<Member>([], IsRootMember) == 0 && CountIf<Edge>([], IsContracted) == 0;
  }

  /** A new singleton vertex keeps every root and adds one. */
  lemma ConsistentAddVertex(subs: seq<Member>, height: seq<nat>, edges: seq<Edge>)
    requires Consistent(subs, height, edges)
    ensures Consistent(subs + [NewMember(|subs|, 0)], height + [0], edges)
  {
    var m := NewMember(|subs|, 0);
    var subs', height' := subs + [m], height + [0];
    assert Forest(subs', height');
    RootsExtend(subs, height, m, 0);
    CountIfAppend(subs, IsRootMember, m);
  }

  /** A new uncontracted edge between two existing vertices keeps the invariant. */
  lemma ConsistentAddEdge(subs: seq<Member>, height: seq<nat>, edges: seq<Edge>, e: Edge)
    requires Consistent(subs, height, edges)
    requires e.i < e.j < |subs| && !e.contracted
    ensures Consistent(subs, height, edges + [e])
  {
    CountIfAppend(edges, IsContracted, e);
  }

  /** Disabling an edge keeps the invariant: its flags other than `disabled`
      do not change. */
  lemma ConsistentDisable(subs: seq<Member>, height: seq<nat>, edges: seq<Edge>, x: nat)
    requires Consistent(subs, height, edges) && x < |edges|
    ensures Consistent(subs, height, edges[x := edges[x].(disabled := true)])
  {
    CountIfUpdate(edges, IsContracted, x, edges[x].(disabled := true));
  }

  /** The roots after a contraction of e: the subgraphs of e's endpoints are
      one, and every other vertex keeps its root. */
  ghost predicate Merged(before: seq<nat>, after: seq<nat>, e: Edge)
    requires e.i < |before| && e.j < |before|
  {
    && |after| == |before|
    && after[e.i] == after[e.j]
    && forall v :: 0 <= v < |before| ==>
         after[v] == if before[v] == before[e.i] || before[v] == before[e.j] then after[e.i] else before[v]
  }

  /** Relinking the root of one end of e to the root of the other merges
      exactly their two subgraphs. */
  lemma RelinkMerges(before: seq<nat>, e: Edge, child: nat, top: nat)
    requires e.i < |before| && e.j < |before|
    requires (before[e.i] == child && before[e.j] == top) || (before[e.i] == top && before[e.j] == child)
    ensures Merged(before, Relink(before, child, top), e)
  {
  }

  /** The subgraphs of `after` are unions of those of `before`. */
  ghost predicate Coarser(before: seq<nat>, after: seq<nat>) {
    && |after| == |before|
    && forall u, w :: 0 <= u < |before| && 0 <= w < |before| && before[u] == before[w] ==> after[u] == after[w]
  }

  lemma MergedCoarser(before: seq<nat>, after: seq<nat>, e: Edge)
    requires e.i < |before| && e.j < |before| && Merged(before, after, e)
    ensures Coarser(before, after)
  {
  }

  lemma CoarserTrans(a: seq<nat>, b: seq<nat>, c: seq<nat>)
    requires Coarser(a, b) && Coarser(b, c)
    ensures Coarser(a, c)
  {
  }

  /** Every chosen edge has both ends in one subgraph. */
  ghost predicate Joined(roots: seq<nat>, choices: seq<Option<Edge>>) {
    forall w :: 0 <= w < |choices| && choices[w].Some? ==>
      choices[w].value.i < |roots| && choices[w].value.j < |roots| &&
      roots[choices[w].value.i] == roots[choices[w].value.j]
  }

  lemma CoarserKeepsJoined(before: seq<nat>, after: seq<nat>, choices: seq<Option<Edge>>)
    requires Coarser(before, after) && Joined(before, choices)
    ensures Joined(after, choices)
  {
  }

  lemma JoinedStep(roots: seq<nat>, choices: seq<Option<Edge>>, v: nat)
    requires v < |choices| && Joined(roots, choices[..v])
    requires choices[v].Some? ==>
      choices[v].value.i < |roots| && choices[v].value.j < |roots| && roots[choices[v].value.i] == roots[choices[v].value.j]
    ensures Joined(roots, choices[..v + 1])
  {
    assert forall w :: 0 <= w < v ==> choices[..v + 1][w] == choices[..v][w];
  }

  /** The two ends of e lie in different subgraphs. */
  ghost predicate Splits(roots: seq<nat>, e: Edge) {
    e.i < |roots| && e.j < |roots| && roots[e.i] != roots[e.j]
  }

  /** A Boruvka turn with choice c: it merges the two subgraphs of the chosen
      edge when they differ, and changes nothing otherwise. */
  ghost predicate Step(before: seq<nat>, after: seq<nat>, c: Option<Edge>) {
    if c.Some? && Splits(before, c.value) then Merged(before, after, c.value) else after == before
  }

  /** The turn with choice c, taken under `roots`, contracts edge k. */
  ghost predicate Contracts(roots: seq<nat>, c: Option<Edge>, k: nat) {
    c.Some? && c.value.index == k && Splits(roots, c.value)
  }

  /** Some turn of the phase contracted edge k. */
  ghost predicate ContractedIn(rounds: seq<seq<nat>>, choices: seq<Option<Edge>>, k: nat) {
    exists w :: 0 <= w < |choices| && w < |rounds| && Contracts(rounds[w], choices[w], k)
  }

  /** Contracting e, or finding its ends already joined, is the turn of any
      choice with the same ends. */
  lemma StepOfContract(before: seq<nat>, after: seq<nat>, e: Edge, c: Edge)
    requires c.i == e.i && c.j == e.j && e.i < |before| && e.j < |before|
    requires Merged(before, after, e)
    requires !Splits(before, e) ==> after == before
    ensures Step(before, after, Some(c))
  {
  }

  /** The record of a Boruvka phase after v turns: `rounds` holds the
      partition before each turn and after the last, each turn is the step of
      its choice, and the contracted flags are the initial ones plus exactly
      the edges some turn contracted. */
  ghost predicate Trace(rounds: seq<seq<nat>>, chosen: seq<Option<Edge>>, v: nat, edges0: seq<Edge>, flags: seq<Edge>) {
    && |rounds| == v + 1 && v <= |chosen| && |flags| == |edges0|
    && (forall w :: 0 <= w < v ==> Step(rounds[w], rounds[w + 1], chosen[w]))
    && (forall k :: 0 <= k < |edges0| ==>
          (flags[k].contracted <==> edges0[k].contracted || ContractedIn(rounds, chosen[..v], k)))
  }

  /** Appending a turn to the record of the phase: the new partition follows
      from the last by that turn's step, and the contracted flags gain exactly
      the edge that turn contracts. */
  lemma PhaseAdvance(rounds: seq<seq<nat>>, after: seq<nat>, chosen: seq<Option<Edge>>, v: nat,
                     edges0: seq<Edge>, flags: seq<Edge>, flags': seq<Edge>)
    requires Trace(rounds, chosen, v, edges0, flags) && v < |chosen| && |flags'| == |edges0|
    requires Step(rounds[v], after, chosen[v])
    requires forall k :: 0 <= k < |edges0| ==>
      (flags'[k].contracted <==> flags[k].contracted || Contracts(rounds[v], chosen[v], k))
    ensures Trace(rounds + [after], chosen, v + 1, edges0, flags')
  {
    var rs := rounds + [after];
    assert forall w :: 0 <= w <= v ==> rs[w] == rounds[w];
    forall k | 0 <= k < |edges0|
      ensures ContractedIn(rs, chosen[..v + 1], k) <==> ContractedIn(rounds, chosen[..v], k) || Contracts(rounds[v], chosen[v], k)
    {
      if ContractedIn(rs, chosen[..v + 1], k) {
        var w :| 0 <= w < v + 1 && w < |rs| && Contracts(rs[w], chosen[..v + 1][w], k);
        if w < v {
          assert Contracts(rounds[w], chosen[..v][w], k);
        }
      }
      if ContractedIn(rounds, chosen[..v], k) {
        var w :| 0 <= w < v && w < |rounds| && Contracts(rounds[w], chosen[..v][w], k);
        assert Contracts(rs[w], chosen[..v + 1][w], k);
      }
      if Contracts(rounds[v], chosen[v], k) {
        assert Contracts(rs[v], chosen[..v + 1][v], k);
      }
    }
  }

  /** A turn whose vertex chose the edge x: `ContractEdge` merged the two
      subgraphs of x, or found them equal and changed nothing, and flagged x
      as contracted exactly in the first case. */
  lemma ContractTurn(rounds: seq<seq<nat>>, after: seq<nat>, chosen: seq<Option<Edge>>, v: nat,
                     edges0: seq<Edge>, flags: seq<Edge>, flags': seq<Edge>, x: nat)
    requires Trace(rounds, chosen, v, edges0, flags) && v < |chosen|
    requires x < |edges0| && chosen[v] == Some(edges0[x]) && edges0[x].index == x
    requires SameEdges(edges0, flags) && |flags'| == |flags|
    requires flags[x].i < |rounds[v]| && flags[x].j < |rounds[v]|
    requires Merged(rounds[v], after, flags[x])
    requires rounds[v][flags[x].i] == rounds[v][flags[x].j] ==> after == rounds[v]
    requires forall k :: 0 <= k < |flags| ==>
      flags'[k].contracted == (flags[k].contracted || (k == x && rounds[v][flags[x].i] != rounds[v][flags[x].j]))
    ensures Trace(rounds + [after], chosen, v + 1, edges0, flags')
  {
    StepOfContract(rounds[v], after, flags[x], edges0[x]);
    PhaseAdvance(rounds, after, chosen, v, edges0, flags, flags');
  }

  /** A turn whose vertex chose nothing changes neither the partition nor
      the flags. */
  lemma SkipTurn(rounds: seq<seq<nat>>, chosen: seq<Option<Edge>>, v: nat, edges0: seq<Edge>, flags: seq<Edge>)
    requires Trace(rounds, chosen, v, edges0, flags) && v < |chosen| && chosen[v].None?
    ensures Trace(rounds + [rounds[v]], chosen, v + 1, edges0, flags)
  {
    PhaseAdvance(rounds, rounds[v], chosen, v, edges0, flags, flags);
  }

  /** `cheapest` names, by index into `edges`, the choices `chosen`. */
  ghost predicate Picks(cheapest: seq<Option<nat>>, edges: seq<Edge>, chosen: seq<Option<Edge>>) {
    && (forall w :: 0 <= w < |cheapest| && cheapest[w].Some? ==> cheapest[w].value < |edges|)
    && Resolve(cheapest, edges) == chosen
  }

  lemma ResolveAt(cheapest: seq<Option<nat>>, edges: seq<Edge>, v: nat)
    requires forall w :: 0 <= w < |cheapest| && cheapest[w].Some? ==> cheapest[w].value < |edges|
    requires v < |cheapest|
    ensures Resolve(cheapest, edges)[v] == if cheapest[v].None? then None else Some(edges[cheapest[v].value])
  {
  }

  /** Only the flags of an edge change after it has been added. */
  ghost predicate SameEdges(before: seq<Edge>, after: seq<Edge>) {
    && |after| == |before|
    && forall k :: 0 <= k < |before| ==>
         after[k].i == before[k].i && after[k].j == before[k].j && after[k].weight == before[k].weight
  }

  lemma DisableEachKeepsEdges(edges: seq<Edge>, drop: seq<nat>)
    requires forall a :: 0 <= a < |drop| ==> drop[a] < |edges|
    ensures SameEdges(edges, DisableEach(edges, drop))
    ensures forall k :: 0 <= k < |edges| ==> DisableEach(edges, drop)[k].contracted == edges[k].contracted
  {
  }

  /** Contracting edge x and then only disabling edges keeps every edge's
      ends and weight, and adds x alone to the contracted edges. */
  lemma SameEdgesAfterContract(edges: seq<Edge>, x: nat, after: seq<Edge>)
    requires x < |edges|
    requires SameEdges(ContractAt(edges, x), after)
    requires forall k :: 0 <= k < |after| ==> after[k].contracted == ContractAt(edges, x)[k].contracted
    ensures SameEdges(edges, after)
    ensures forall k :: 0 <= k < |after| ==> after[k].contracted == (edges[k].contracted || k == x)
  {
    var mid := ContractAt(edges, x);
    assert forall k :: 0 <= k < |edges| ==> mid[k].i == edges[k].i && mid[k].j == edges[k].j && mid[k].weight == edges[k].weight;
  }

  /** The edges a sequence of optional indices names. */
  function Resolve(cheapest: seq<Option<nat>>, edges: seq<Edge>): (r: seq<Option<Edge>>)
    requires forall v :: 0 <= v < |cheapest| && cheapest[v].Some? ==> cheapest[v].value < |edges|
    ensures |r| == |cheapest|
  {
    seq(|cheapest|, v requires 0 <= v < |cheapest| =>
      if cheapest[v].None? then None else Some(edges[cheapest[v].value]))
  }

  /** Hanging root `child` under root `top` and contracting edge x, whose ends
      lie in those two subgraphs, keeps the invariant. */
  lemma ConsistentContract(subs: seq<Member>, height: seq<nat>, edges: seq<Edge>, x: nat, child: nat, top: nat)
    requires Consistent(subs, height, edges) && x < |edges|
    requires child < |subs| && top < |subs| && child != top
    requires subs[child].IsRoot() && subs[top].IsRoot()
    requires var roots, e := RootsOf(subs, height), edges[x];
      (roots[e.i] == child && roots[e.j] == top) || (roots[e.i] == top && roots[e.j] == child)
    ensures Consistent(subs[child := subs[child].SetParent(top)], height[top := MaxOf(height) + 1],
                       edges[x := edges[x].(contracted := true, disabled := true)])
  {
    var subs', height' := subs[child := subs[child].SetParent(top)], height[top := MaxOf(height) + 1];
    var edges' := edges[x := edges[x].(contracted := true, disabled := true)];
    ContractKeepsEdgesInside(subs, height, edges, x, child, top);
    assert subs[child].original == child;
    ContractCounts(subs, edges, x, child, top);
    ConsistentFrom(subs', height', edges', subs, edges);
  }

  /** Consistency from its two halves, the counts given relative to a
      consistent state with one more root and one fewer contracted edge. */
  lemma ConsistentFrom(subs': seq<Member>, height': seq<nat>, edges': seq<Edge>, subs: seq<Member>, edges: seq<Edge>)
    requires EdgesInside(subs', height', edges') && |subs'| == |subs|
    requires CountIf(subs', IsRootMember) + 1 == CountIf(subs, IsRootMember)
    requires CountIf(edges', IsContracted) == CountIf(edges, IsContracted) + 1
    requires CountIf(subs, IsRootMember) + CountIf(edges, IsContracted) == |subs|
    ensures Consistent(subs', height', edges')
  {
  }

  /** Everything `LinkAndContract` needs about the values it produces. */
  lemma ContractState(subs: seq<Member>, height: seq<nat>, edges: seq<Edge>, x: nat, child: nat, top: nat,
                       linked: seq<Member>, raised: seq<nat>, edges': seq<Edge>)
    requires Consistent(subs, height, edges) && x < |edges|
    requires child < |subs| && top < |subs| && child != top
    requires subs[child].IsRoot() && subs[top].IsRoot()
    requires var roots, e := RootsOf(subs, height), edges[x];
      (roots[e.i] == child && roots[e.j] == top) || (roots[e.i] == top && roots[e.j] == child)
    requires linked == subs[child := subs[child].SetParent(top)]
    requires raised == height[top := MaxOf(height) + 1]
    requires edges' == edges[x := edges[x].(contracted := true, disabled := true)]
    ensures Consistent(linked, raised, edges')
    ensures RootsOf(linked, raised) == Relink(RootsOf(subs, height), child, top)
    ensures CountIf(edges', IsContracted) == CountIf(edges, IsContracted) + 1
  {
    ConsistentContract(subs, height, edges, x, child, top);
    assert !IsContracted(edges[x]);
    ContractCounts(subs, edges, x, child, top);
    LinkRoots(subs, height, child, top);
  }

  /** The link takes one root away and the contraction adds one contracted edge. */
  lemma ContractCounts(subs: seq<Member>, edges: seq<Edge>, x: nat, child: nat, top: nat)
    requires x < |edges| && !edges[x].contracted
    requires child < |subs| && subs[child].IsRoot() && subs[child].original != top
    ensures CountIf(subs[child := subs[child].SetParent(top)], IsRootMember) + 1 == CountIf(subs, IsRootMember)
    ensures CountIf(edges[x := edges[x].(contracted := true, disabled := true)], IsContracted) ==
      CountIf(edges, IsContracted) + 1
  {
    CountIfUpdate(edges, IsContracted, x, edges[x].(contracted := true, disabled := true));
    CountIfUpdate(subs, IsRootMember, child, subs[child].SetParent(top));
  }

  /** After the link, every edge still joins two vertices lo < hi and every
      contracted edge, the new one included, lies inside one subgraph. */
  lemma ContractKeepsEdgesInside(subs: seq<Member>, height: seq<nat>, edges: seq<Edge>, x: nat, child: nat, top: nat)
    requires Consistent(subs, height, edges) && x < |edges|
    requires child < |subs| && top < |subs| && child != top
    requires subs[child].IsRoot() && subs[top].IsRoot()
    requires var roots, e := RootsOf(subs, height), edges[x];
      (roots[e.i] == child && roots[e.j] == top) || (roots[e.i] == top && roots[e.j] == child)
    ensures !edges[x].contracted
    ensures EdgesInside(subs[child := subs[child].SetParent(top)], height[top := MaxOf(height) + 1],
                        edges[x := edges[x].(contracted := true, disabled := true)])
  {
    var subs' := subs[child := subs[child].SetParent(top)];
    var height' := height[top := MaxOf(height) + 1];
    var edges' := edges[x := edges[x].(contracted := true, disabled := true)];
    var roots := RootsOf(subs, height);
    LinkRoots(subs, height, child, top);
    RelinkKeepsInside(edges, roots, x, child, top);
    var roots' := RootsOf(subs', height');
    assert roots' == Relink(roots, child, top);
  }

  /** Relinking `child` under `top` keeps each contracted edge inside one
      subgraph, and puts the edge at x, which joins the two, inside one too. */
  lemma RelinkKeepsInside(edges: seq<Edge>, roots: seq<nat>, x: nat, child: nat, top: nat)
    requires x < |edges| && forall k :: 0 <= k < |edges| ==> edges[k].i < edges[k].j < |roots|
    requires forall k :: 0 <= k < |edges| && edges[k].contracted ==> roots[edges[k].i] == roots[edges[k].j]
    requires var e := edges[x];
      (roots[e.i] == child && roots[e.j] == top) || (roots[e.i] == top && roots[e.j] == child)
    ensures var edges', roots' := edges[x := edges[x].(contracted := true, disabled := true)], Relink(roots, child, top);
      && (forall k :: 0 <= k < |edges'| ==> edges'[k].i < edges'[k].j < |roots|)
      && forall k :: 0 <= k < |edges'| && edges'[k].contracted ==> roots'[edges'[k].i] == roots'[edges'[k].j]
  {
    var edges', roots' := edges[x := edges[x].(contracted := true, disabled := true)], Relink(roots, child, top);
    forall k | 0 <= k < |edges'| && edges'[k].contracted
      ensures roots'[edges'[k].i] == roots'[edges'[k].j]
    {
      var a, b := edges[k].i, edges[k].j;
      assert edges'[k].i == a && edges'[k].j == b;
      if k != x {
        assert roots[a] == roots[b];
      }
    }
  }

  /** Every vertex whose root was a goes to b; the others keep theirs. */
  function Relink(roots: seq<nat>, a: nat, b: nat): (r: seq<nat>)
    ensures |r| == |roots|
    ensures forall v :: 0 <= v < |roots| ==> r[v] == if roots[v] == a then b else roots[v]
  {
    seq(|roots|, v requires 0 <= v < |roots| => if roots[v] == a then b else roots[v])
  }

  /** Hanging root `child` under root `top`, raised above every other member,
      sends the subgraph of `child` to `top` and leaves every other root. */
  lemma LinkRoots(subs: seq<Member>, height: seq<nat>, child: nat, top: nat)
    requires Forest(subs, height) && child < |subs| && top < |subs| && child != top
    requires subs[child].IsRoot() && subs[top].IsRoot()
    ensures Forest(subs[child := subs[child].SetParent(top)], height[top := MaxOf(height) + 1])
    ensures RootsOf(subs[child := subs[child].SetParent(top)], height[top := MaxOf(height) + 1]) ==
      Relink(RootsOf(subs, height), child, top)
  {
    var subs' := subs[child := subs[child].SetParent(top)];
    var height' := height[top := MaxOf(height) + 1];
    forall v | 0 <= v < |subs'| && subs'[v].parent != v ensures height'[v] < height'[subs'[v].parent] {
      if v != child {
        assert subs'[v] == subs[v];
      }
    }
    assert Forest(subs', height');
    forall v | 0 <= v < |subs| ensures
      RootsOf(subs', height')[v] == Relink(RootsOf(subs, height), child, top)[v]
    {
      LinkRoot(subs, height, height', child, top, v);
    }
  }

  /** Appending a member changes no existing vertex's root. */
  lemma RootsExtend(subs: seq<Member>, height: seq<nat>, m: Member, h: nat)
    requires Forest(subs, height) && Forest(subs + [m], height + [h])
    ensures forall v :: 0 <= v < |subs| ==> RootsOf(subs + [m], height + [h])[v] == RootsOf(subs, height)[v]
  {
    forall v | 0 <= v < |subs| ensures RootsOf(subs + [m], height + [h])[v] == RootsOf(subs, height)[v] {
      RootExtend(subs, height, m, h, v);
    }
  }

  lemma {:induction false} RootExtend(subs: seq<Member>, height: seq<nat>, m: Member, h: nat, v: nat)
    requires Forest(subs, height) && Forest(subs + [m], height + [h]) && v < |subs|
    ensures Root(subs + [m], height + [h], v) == Root(subs, height, v)
    decreases MaxOf(height) - height[v]
  {
    if !subs[v].IsRoot() {
      RootExtend(subs, height, m, h, subs[v].parent);
    }
  }

  /** The edge table the constructor builds from a list of entries. */
  function Table(m: seq<(nat, nat, uint32)>): (r: seq<Edge>)
    ensures |r| == |m|
    ensures forall k :: 0 <= k < |m| ==> r[k] == NewEdge(m[k].0, m[k].1, m[k].2, k)
  {
    seq(|m|, k requires 0 <= k < |m| => NewEdge(m[k].0, m[k].1, m[k].2, k))
  }

  lemma TableAppend(m: seq<(nat, nat, uint32)>, t: (nat, nat, uint32))
    ensures Table(m + [t]) == Table(m) + [NewEdge(t.0, t.1, t.2, |m|)]
  {
  }

  lemma TableUncontracted(m: seq<(nat, nat, uint32)>)
    ensures CountIf(Table(m), IsContracted) == 0
  {
    var t := Table(m);
    assert forall k :: 0 <= k < |t| ==> NotContracted(t[k]);
    CountIfAll(t, NotContracted);
    CountIfComplement(t, IsContracted, NotContracted);
  }

  lemma {:induction false} CountIfComplement<T>(s: seq<T>, p: T -> bool, q: T -> bool)
    requires forall x :: p(x) == !q(x)
    ensures CountIf(s, p) + CountIf(s, q) == |s|
    decreases |s|
  {
    if s != [] {
      CountIfComplement(s[..|s| - 1], p, q);
    }
  }

  lemma RowEntriesStep(a: seq<seq<uint32>>, i: nat, j: nat, prefix: seq<(nat, nat, uint32)>)
    requires Square(a) && i < |a| && j < i
    ensures prefix + RowEntries(a, i, j + 1) ==
      if MaxWeight(a, i, j) == 0 then prefix + RowEntries(a, i, j)
      else (prefix + RowEntries(a, i, j)) + [(j, i, MaxWeight(a, i, j))]
  {
  }

  function ContractedEnds(edges: seq<Edge>): (r: seq<(nat, nat)>)
    ensures |r| == CountIf(edges, IsContracted)
    ensures forall p :: p in r <==> exists k :: 0 <= k < |edges| && edges[k].contracted && edges[k].OriginalVertices() == p
  {
    if edges == [] then []
    else
      var before := ContractedEnds(edges[..|edges| - 1]);
      var e := edges[|edges| - 1];
      assert forall k :: 0 <= k < |edges| - 1 ==> edges[..|edges| - 1][k] == edges[k];
      if e.contracted then before + [e.OriginalVertices()] else before
  }
}
