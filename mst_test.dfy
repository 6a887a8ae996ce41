/**
 * The test-graph generator of the MST tests (`GenerateMatrix` in
 * MST/Test/MSTTest.cpp): k doubling rounds build the edges of a binomial tree
 * on 2^k vertices; each post-processing round then hangs a new vertex off
 * both ends of every edge; finally the edges, numbered from |E| down to 1,
 * are written symmetrically into an N x N weight matrix.
 */
module MstTest {

  type Pair = (nat, nat)

  function Pow(b: nat, e: nat): (r: nat)
    requires b > 0
    ensures r > 0
  {
    if e == 0 then 1 else b * Pow(b, e - 1)
  }

  /** The pairs of s, both ends shifted by n. */
  function Shift(s: seq<Pair>, n: nat): (r: seq<Pair>)
    ensures |r| == |s|
    ensures forall t :: 0 <= t < |s| ==> r[t] == (s[t].0 + n, s[t].1 + n)
  {
    seq(|s|, t requires 0 <= t < |s| => (s[t].0 + n, s[t].1 + n))
  }

  /** The edge list after k doubling rounds: a copy shifted by N, then (0, N). */
  function Binomial(k: nat): seq<Pair> {
    if k == 0 then []
    else
      var prev := Binomial(k - 1);
      prev + Shift(prev, Pow(2, k - 1)) + [(0, Pow(2, k - 1))]
  }

  /** The pairs one post-processing round adds when it walks s backwards from
      vertex n on: the last edge gets vertex n, the first n + |s| - 1, and
      each edge (i, j) gives (i, m) and (j, m) for its vertex m. */
  function Attach(s: seq<Pair>, n: nat): (r: seq<Pair>)
    ensures |r| == 2 * |s|
  {
    if s == [] then []
    else Attach(s[1..], n) + [(s[0].0, n + |s| - 1), (s[0].1, n + |s| - 1)]
  }

  /** z post-processing rounds on the edges e over n vertices. */
  function Post(e: seq<Pair>, n: nat, z: nat): (seq<Pair>, nat)
    decreases z
  {
    if z == 0 then (e, n) else Post(e + Attach(e, n), n + |e|, z - 1)
  }

  /** The edge list and vertex count `GenerateMatrix(k, postprocess)` builds. */
  function Generated(k: nat, postprocess: nat): (seq<Pair>, nat) {
    Post(Binomial(k), Pow(2, k), postprocess)
  }

  /** The weight left in cell (a, b) once the edges are written in order, the
      edge at position t weighing total - t: the last edge joining a and b
      wins, and 0 stays where no edge does. */
  function CellOf(edges: seq<Pair>, total: nat, a: nat, b: nat): nat
    requires |edges| <= total
  {
    if edges == [] then 0
    else
      var t := |edges| - 1;
      if edges[t] == (a, b) || edges[t] == (b, a) then total - t
      else CellOf(edges[..t], total, a, b)
  }

  /** Every edge (i, j) has i < j < n. */
  predicate Ordered(edges: seq<Pair>, n: nat) {
    forall t :: 0 <= t < |edges| ==> edges[t].0 < edges[t].1 < n
  }

  predicate NoDup(edges: seq<Pair>) {
    forall p, q :: 0 <= p < q < |edges| ==> edges[p] != edges[q]
  }

  // ---------------------------------------------------------------------------
  // Shape of the edge list
  // ---------------------------------------------------------------------------

  /** Two distinct-edge lists with nothing in common join into one. */
  lemma JoinNoDup(x: seq<Pair>, y: seq<Pair>)
    requires NoDup(x) && NoDup(y)
    requires forall p, q :: 0 <= p < |x| && 0 <= q < |y| ==> x[p] != y[q]
    ensures NoDup(x + y)
  {
    var e := x + y;
    forall p, q | 0 <= p < q < |e| ensures e[p] != e[q] {
      if p >= |x| {
        assert e[p] == y[p - |x|] && e[q] == y[q - |x|];
      } else if q >= |x| {
        assert e[q] == y[q - |x|];
      }
    }
  }

  /** The shifted copy of ordered distinct edges over n vertices is ordered and
      distinct over 2n and lies wholly at n and above. */
  lemma ShiftShape(s: seq<Pair>, n: nat)
    requires Ordered(s, n) && NoDup(s)
    ensures Ordered(Shift(s, n), 2 * n) && NoDup(Shift(s, n))
    ensures forall t :: 0 <= t < |s| ==> Shift(s, n)[t].0 >= n
  {
    var sh := Shift(s, n);
    forall p, q | 0 <= p < q < |sh| ensures sh[p] != sh[q] {
      assert s[p] != s[q];
    }
  }

  /** After k doubling rounds: 2^k - 1 distinct edges over 2^k vertices. */
  lemma {:induction false} BinomialShape(k: nat)
    ensures |Binomial(k)| + 1 == Pow(2, k)
    ensures Ordered(Binomial(k), Pow(2, k)) && NoDup(Binomial(k))
  {
    if k > 0 {
      BinomialShape(k - 1);
      var prev, n := Binomial(k - 1), Pow(2, k - 1);
      var sh := Shift(prev, n);
      ShiftShape(prev, n);
      JoinNoDup(prev, sh);
      var last: seq<Pair> := [(0, n)];
      JoinNoDup(prev + sh, last);
      assert Binomial(k) == prev + sh + last;
    }
  }

  /** The pairs a round adds for s name vertices n .. n + |s| - 1, each once
      per end of its edge. */
  lemma {:induction false} AttachBounds(s: seq<Pair>, n: nat)
    requires Ordered(s, n)
    ensures forall p :: 0 <= p < |Attach(s, n)| ==>
      Attach(s, n)[p].0 < n <= Attach(s, n)[p].1 < n + |s|
    ensures NoDup(Attach(s, n))
  {
    if s != [] {
      assert Ordered(s[1..], n) by {
        assert forall t :: 0 <= t < |s| - 1 ==> s[1..][t] == s[t + 1];
      }
      AttachBounds(s[1..], n);
      var top: seq<Pair> := [(s[0].0, n + |s| - 1), (s[0].1, n + |s| - 1)];
      JoinNoDup(Attach(s[1..], n), top);
    }
  }

  /** One post-processing round triples the edges, adds |s| vertices, and keeps
      the edges ordered and distinct. */
  lemma AttachShape(s: seq<Pair>, n: nat)
    requires Ordered(s, n) && NoDup(s)
    ensures |s + Attach(s, n)| == 3 * |s|
    ensures Ordered(s + Attach(s, n), n + |s|) && NoDup(s + Attach(s, n))
  {
    AttachBounds(s, n);
    JoinNoDup(s, Attach(s, n));
  }

  /** z rounds: the edge count is multiplied by 3^z and stays ordered and distinct. */
  lemma {:induction false} PostShape(e: seq<Pair>, n: nat, z: nat)
    requires Ordered(e, n) && NoDup(e)
    decreases z
    ensures |Post(e, n, z).0| == |e| * Pow(3, z) && Post(e, n, z).1 >= n
    ensures Ordered(Post(e, n, z).0, Post(e, n, z).1) && NoDup(Post(e, n, z).0)
  {
    if z > 0 {
      AttachShape(e, n);
      PostShape(e + Attach(e, n), n + |e|, z - 1);
    }
  }

  /** The generated list: 3^z (2^k - 1) distinct edges, each with i < j < N. */
  lemma GeneratedShape(k: nat, postprocess: nat)
    ensures |Generated(k, postprocess).0| + Pow(3, postprocess) == Pow(2, k) * Pow(3, postprocess)
    ensures Ordered(Generated(k, postprocess).0, Generated(k, postprocess).1)
    ensures NoDup(Generated(k, postprocess).0)
  {
    BinomialShape(k);
    PostShape(Binomial(k), Pow(2, k), postprocess);
    var g := Generated(k, postprocess);
    var b, p := |Binomial(k)|, Pow(3, postprocess);
    assert |g.0| == b * p;
    assert |g.0| + p == Pow(2, k) * p by {
      MulSucc(b, p);
    }
  }

  lemma MulSucc(b: nat, p: nat)
    ensures (b + 1) * p == b * p + p
  {
  }

  // ---------------------------------------------------------------------------
  // The weight matrix
  // ---------------------------------------------------------------------------

  /** Each weight is written to both (i, j) and (j, i). */
  lemma {:induction false} CellSymmetric(edges: seq<Pair>, total: nat, a: nat, b: nat)
    requires |edges| <= total
    ensures CellOf(edges, total, a, b) == CellOf(edges, total, b, a)
  {
    if edges != [] {
      CellSymmetric(edges[..|edges| - 1], total, a, b);
    }
  }

  /** No ordered edge touches the diagonal, so it stays 0. */
  lemma {:induction false} CellDiagonal(edges: seq<Pair>, n: nat, total: nat, a: nat)
    requires Ordered(edges, n) && |edges| <= total
    ensures CellOf(edges, total, a, a) == 0
  {
    if edges != [] {
      var t := |edges| - 1;
      assert edges[t].0 < edges[t].1;
      CellDiagonal(edges[..t], n, total, a);
    }
  }

  /** With distinct ordered edges and total = |edges|, the edge at position t
      weighs |edges| - t: the first |edges|, the last 1. */
  lemma {:induction false} CellOfEdge(edges: seq<Pair>, n: nat, total: nat, t: nat)
    requires Ordered(edges, n) && NoDup(edges) && t < |edges| && |edges| <= total
    ensures CellOf(edges, total, edges[t].0, edges[t].1) == total - t
  {
    var last := |edges| - 1;
    if t < last {
      var init := edges[..last];
      assert edges[last] != edges[t];
      assert edges[last] != (edges[t].1, edges[t].0) by {
        assert edges[last].0 < edges[last].1;
      }
      assert init[t] == edges[t];
      CellOfEdge(init, n, total, t);
    }
  }

  /** Cells joined by no edge stay 0. */
  lemma {:induction false} CellOfNonEdge(edges: seq<Pair>, total: nat, a: nat, b: nat)
    requires |edges| <= total
    requires forall t :: 0 <= t < |edges| ==> edges[t] != (a, b) && edges[t] != (b, a)
    ensures CellOf(edges, total, a, b) == 0
  {
    if edges != [] {
      var t := |edges| - 1;
      assert forall u :: 0 <= u < t ==> edges[..t][u] == edges[u];
      CellOfNonEdge(edges[..t], total, a, b);
    }
  }

  /** The matrix `GenerateMatrix` returns: symmetric, zero on the diagonal, the
      t-th generated edge weighing |E| - t at both of its cells. */
  lemma GeneratedMatrix(k: nat, postprocess: nat)
    ensures var (edges, n) := Generated(k, postprocess);
      && (forall a, b :: CellOf(edges, |edges|, a, b) == CellOf(edges, |edges|, b, a))
      && (forall a :: CellOf(edges, |edges|, a, a) == 0)
      && forall t :: 0 <= t < |edges| ==>
        edges[t].1 < n && CellOf(edges, |edges|, edges[t].0, edges[t].1) == |edges| - t
  {
    var (edges, n) := Generated(k, postprocess);
    GeneratedShape(k, postprocess);
    forall a, b ensures CellOf(edges, |edges|, a, b) == CellOf(edges, |edges|, b, a) {
      CellSymmetric(edges, |edges|, a, b);
    }
    forall a ensures CellOf(edges, |edges|, a, a) == 0 {
      CellDiagonal(edges, n, |edges|, a);
    }
    forall t | 0 <= t < |edges| ensures CellOf(edges, |edges|, edges[t].0, edges[t].1) == |edges| - t {
      CellOfEdge(edges, n, |edges|, t);
    }
  }

  // ---------------------------------------------------------------------------
  // GenerateMatrix
  // ---------------------------------------------------------------------------

  /** One doubling round's copy: every edge shifted by n. */
  method ShiftedCopy(edges: seq<Pair>, n: nat) returns (toAdd: seq<Pair>)
    ensures toAdd == Shift(edges, n)
  {
    toAdd := [];
    var t := 0;
    while t < |edges|
      invariant t <= |edges| && toAdd == Shift(edges[..t], n)
    {
      toAdd := toAdd + [(edges[t].0 + n, edges[t].1 + n)];
      t := t + 1;
    }
    assert edges[..t] == edges;
  }

  /** One post-processing round's additions, walking the edges backwards and
      numbering a new vertex per edge from n on. */
  method Attachments(edges: seq<Pair>, n: nat) returns (toAdd: seq<Pair>, next: nat)
    ensures toAdd == Attach(edges, n) && next == n + |edges|
  {
    toAdd := [];
    next := n;
    var t := 0;
    while t < |edges|
      invariant t <= |edges| && toAdd == Attach(edges[|edges| - t..], n) && next == n + t
    {
      var e := edges[|edges| - 1 - t];
      ghost var u := edges[|edges| - 1 - t..];
      assert u[0] == e && u[1..] == edges[|edges| - t..];
      toAdd := toAdd + [(e.0, next), (e.1, next)];
      next := next + 1;
      t := t + 1;
    }
    assert edges[|edges| - t..] == edges;
  }

  /** Writes weight w at (i, j) and (j, i). */
  function Write(m: seq<seq<nat>>, i: nat, j: nat, w: nat): (r: seq<seq<nat>>)
    requires i < |m| && j < |m| && |m[i]| == |m| && |m[j]| == |m|
    ensures |r| == |m| && forall a :: 0 <= a < |m| ==> |r[a]| == |m[a]|
  {
    var row: seq<nat> := m[i][j := w];
    var m': seq<seq<nat>> := m[i := row];
    var row': seq<nat> := m'[j][i := w];
    m'[j := row']
  }

  /** `GenerateMatrix(k, postprocess_)`. */
  method GenerateMatrix(k: nat, postprocess: nat) returns (result: seq<seq<nat>>)
    ensures var (edges, n) := Generated(k, postprocess);
      && |result| == n
      && (forall a :: 0 <= a < n ==> |result[a]| == n)
      && forall a, b :: 0 <= a < n && 0 <= b < n ==> result[a][b] == CellOf(edges, |edges|, a, b)
  {
    var edges: seq<Pair> := [];
    var n := 1;
    var i := 0;
    while i < k
      invariant i <= k && edges == Binomial(i) && n == Pow(2, i)
    {
      var toAdd := ShiftedCopy(edges, n);
      edges := edges + toAdd + [(0, n)];
      n := n * 2;
      i := i + 1;
    }
    BinomialShape(k);
    var z := 0;
    while z < postprocess
      invariant z <= postprocess && Ordered(edges, n) && NoDup(edges)
      invariant Post(edges, n, postprocess - z) == Generated(k, postprocess)
    {
      var toAdd, next := Attachments(edges, n);
      AttachShape(edges, n);
      edges := edges + toAdd;
      n := next;
      z := z + 1;
    }
    result := FillMatrix(edges, n);
  }

  /** The matrix part of `GenerateMatrix`: N rows of N zeros, then the edges
      written with weights counting down from |edges|. */
  method FillMatrix(edges: seq<Pair>, n: nat) returns (result: seq<seq<nat>>)
    requires Ordered(edges, n)
    ensures |result| == n && forall a :: 0 <= a < n ==> |result[a]| == n
    ensures forall a, b :: 0 <= a < n && 0 <= b < n ==> result[a][b] == CellOf(edges, |edges|, a, b)
  {
    result := [];
    var zeros: seq<nat> := seq(n, _ => 0);
    while |result| < n
      invariant |result| <= n && forall a :: 0 <= a < |result| ==> result[a] == zeros
    {
      result := result + [zeros];
    }
    var weight := |edges|;
    var t := 0;
    while t < |edges|
      invariant t <= |edges| && weight == |edges| - t
      invariant |result| == n && forall a :: 0 <= a < n ==> |result[a]| == n
      invariant forall a, b :: 0 <= a < n && 0 <= b < n ==> result[a][b] == CellOf(edges[..t], |edges|, a, b)
    {
      var (i, j) := edges[t];
      assert edges[..t + 1][..t] == edges[..t];
      result := Write(result, i, j, weight);
      weight := weight - 1;
      t := t + 1;
    }
    assert edges[..t] == edges;
  }
}
