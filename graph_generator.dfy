/**
 * The script that prints test matrices (Misc/graph_generator.py).  The graph
 * library's binomial tree, its edge lists and its adjacency matrix are inputs
 * here; what is modelled is the script's own work: hanging a new vertex off
 * the second end of every edge, numbering the edges 1..M, and printing each
 * matrix row as a C++ `std::array` initialiser.
 */
module GraphGenerator {

  type Pair = (nat, nat)

  // ---------------------------------------------------------------------------
  // Augmentation
  // ---------------------------------------------------------------------------

  /** The edges the augmentation loop adds when it walks edgeList backwards,
      numbering new vertices from n: the last edge's second end gets n, the
      first edge's n + |edgeList| - 1. */
  function Augmented(edgeList: seq<Pair>, n: nat): (r: seq<Pair>)
    ensures |r| == |edgeList|
  {
    if edgeList == [] then []
    else Augmented(edgeList[1..], n) + [(edgeList[0].1, n + |edgeList| - 1)]
  }

  /** Position t of the added edges joins the second end of the t-th edge from
      the back to the new vertex n + t. */
  lemma {:induction false} AugmentedAt(edgeList: seq<Pair>, n: nat)
    ensures forall t :: 0 <= t < |edgeList| ==>
      Augmented(edgeList, n)[t] == (edgeList[|edgeList| - 1 - t].1, n + t)
  {
    if edgeList != [] {
      var rest := edgeList[1..];
      AugmentedAt(rest, n);
      assert forall i :: 0 <= i < |rest| ==> rest[i] == edgeList[i + 1];
    }
  }

  /** The augmentation loop. */
  method Augment(nodeCount: nat, edgeList: seq<Pair>) returns (added: seq<Pair>, next: nat)
    ensures added == Augmented(edgeList, nodeCount) && next == nodeCount + |edgeList|
  {
    var edges := Reverse(edgeList);
    added := [];
    next := nodeCount;
    var t := 0;
    while t < |edges|
      invariant t <= |edges| && next == nodeCount + t
      invariant added == Augmented(edgeList[|edgeList| - t..], nodeCount)
    {
      var (i, j) := edges[t];
      ghost var u := edgeList[|edgeList| - 1 - t..];
      assert u[0] == edges[t] && u[1..] == edgeList[|edgeList| - t..];
      added := added + [(j, next)];
      next := next + 1;
      t := t + 1;
    }
    assert edgeList[|edgeList| - t..] == edgeList;
  }

  function Reverse<T>(s: seq<T>): (r: seq<T>)
    ensures |r| == |s| && forall t :: 0 <= t < |s| ==> r[t] == s[|s| - 1 - t]
  {
    seq(|s|, t requires 0 <= t < |s| => s[|s| - 1 - t])
  }

  /** Two edges are the same undirected edge. */
  predicate SameEdge(a: Pair, b: Pair) {
    a == b || a == (b.1, b.0)
  }

  predicate Distinct(edges: seq<Pair>) {
    forall p, q :: 0 <= p < q < |edges| ==> !SameEdge(edges[p], edges[q])
  }

  /** Vertex v lies on exactly one of the edges, as its second end. */
  predicate OnOneEdge(edges: seq<Pair>, v: nat) {
    exists t :: 0 <= t < |edges| && edges[t].1 == v && OnlyEdge(edges, t, v)
  }

  predicate OnlyEdge(edges: seq<Pair>, t: nat, v: nat) {
    forall u :: 0 <= u < |edges| && u != t ==> edges[u].0 != v && edges[u].1 != v
  }

  /** Over distinct edges on vertices 0..n0-1, augmentation gives 2 |E0|
      distinct edges; the new vertices are exactly n0 .. n0 + |E0| - 1, each on
      one new edge, so the graph has n0 + |E0| vertices. */
  lemma AugmentShape(n0: nat, edgeList: seq<Pair>)
    requires forall t :: 0 <= t < |edgeList| ==> edgeList[t].0 < n0 && edgeList[t].1 < n0
    requires Distinct(edgeList)
    ensures var all := edgeList + Augmented(edgeList, n0);
      && |all| == 2 * |edgeList| && Distinct(all)
      && (forall t :: 0 <= t < |all| ==> all[t].0 < n0 + |edgeList| && all[t].1 < n0 + |edgeList|)
      && forall v :: n0 <= v < n0 + |edgeList| ==> OnOneEdge(all, v)
  {
    var a := Augmented(edgeList, n0);
    var all := edgeList + a;
    AugmentedAt(edgeList, n0);
    var m := |edgeList|;
    forall p, q | 0 <= p < q < |all| ensures !SameEdge(all[p], all[q]) {
      if q >= m {
        assert all[q] == a[q - m];
        if p >= m {
          assert all[p] == a[p - m];
        }
      }
    }
    forall v | n0 <= v < n0 + m ensures OnOneEdge(all, v) {
      var t := m + (v - n0);
      assert all[t] == a[v - n0];
      forall u | 0 <= u < |all| && u != t ensures all[u].0 != v && all[u].1 != v {
        if u >= m {
          assert all[u] == a[u - m];
        }
      }
      assert OnlyEdge(all, t, v);
    }
  }

  // ---------------------------------------------------------------------------
  // Weight numbering
  // ---------------------------------------------------------------------------

  /** The numbering loop: weights 1..M popped from the front of a list, in the
      order of the reversed edge list. */
  method NumberWeights(edgeList: seq<Pair>) returns (weighted: seq<(Pair, nat)>)
    ensures |weighted| == |edgeList|
    ensures forall t :: 0 <= t < |edgeList| ==> weighted[t] == (edgeList[|edgeList| - 1 - t], t + 1)
  {
    var edges := Reverse(edgeList);
    var weights: seq<nat> := seq(|edges|, i => i + 1);
    weighted := [];
    var t := 0;
    while t < |edges|
      invariant t <= |edges| && |weights| == |edges| - t
      invariant forall i :: 0 <= i < |weights| ==> weights[i] == t + i + 1
      invariant |weighted| == t && forall i :: 0 <= i < t ==> weighted[i] == (edges[i], i + 1)
    {
      var w := weights[0];
      weights := weights[1..];
      weighted := weighted + [(edges[t], w)];
      t := t + 1;
    }
  }

  /** Weight w is carried by exactly one edge. */
  predicate WeightOnce(weighted: seq<(Pair, nat)>, w: nat) {
    exists t :: 0 <= t < |weighted| && weighted[t].1 == w
      && forall u :: 0 <= u < |weighted| && u != t ==> weighted[u].1 != w
  }

  /** Every weight 1..M goes to exactly one edge. */
  lemma WeightsOnce(edgeList: seq<Pair>, weighted: seq<(Pair, nat)>)
    requires |weighted| == |edgeList|
    requires forall t :: 0 <= t < |edgeList| ==> weighted[t] == (edgeList[|edgeList| - 1 - t], t + 1)
    ensures forall w :: 1 <= w <= |edgeList| ==> WeightOnce(weighted, w)
    ensures forall t :: 0 <= t < |weighted| ==> 1 <= weighted[t].1 <= |edgeList|
  {
    forall w | 1 <= w <= |edgeList| ensures WeightOnce(weighted, w) {
      var t := w - 1;
      assert weighted[t].1 == w;
      forall u | 0 <= u < |weighted| && u != t ensures weighted[u].1 != w {
        assert weighted[u].1 == u + 1;
      }
    }
  }

  // ---------------------------------------------------------------------------
  // Row formatting
  // ---------------------------------------------------------------------------

  predicate IsDigit(c: char) {
    '0' <= c <= '9'
  }

  predicate AllDigits(s: string) {
    forall i :: 0 <= i < |s| ==> IsDigit(s[i])
  }

  /** `str(v)` for a natural number: decimal, no leading zeros. */
  function NatToString(v: nat): (r: string)
    ensures |r| >= 1 && AllDigits(r)
    ensures (|r| == 1) == (v < 10)
  {
    if v < 10 then [(v + '0' as int) as char]
    else NatToString(v / 10) + [(v % 10 + '0' as int) as char]
  }

  /** Decimal digits back to their value. */
  function ParseNat(s: string): nat
    requires AllDigits(s)
  {
    if s == [] then 0 else 10 * ParseNat(s[..|s| - 1]) + (s[|s| - 1] as int - '0' as int)
  }

  lemma {:induction false} ParseNatToString(v: nat)
    ensures ParseNat(NatToString(v)) == v
  {
    if v >= 10 {
      ParseNatToString(v / 10);
      var s := NatToString(v);
      assert s[..|s| - 1] == NatToString(v / 10);
    }
  }

  /** `f'{str(int(v)):>2}, '`: right-aligned to width two, then a comma and a space. */
  function Cell(v: nat): string {
    var digits := NatToString(v);
    (if |digits| < 2 then " " else "") + digits + ", "
  }

  /** A cell is the value right-aligned in at least two columns, then ", ";
      it starts with a space exactly when the value has one digit. */
  lemma CellShape(v: nat)
    ensures var c := Cell(v);
      && |c| >= 4 && c[|c| - 2..] == ", "
      && ParseNat(c[|c| - 2 - |NatToString(v)|..|c| - 2]) == v
      && |c| == |NatToString(v)| + 2 + (if v < 10 then 1 else 0)
      && (c[0] == ' ' <==> v < 10)
  {
    var c := Cell(v);
    var d := NatToString(v);
    assert c[|c| - 2 - |d|..|c| - 2] == d;
    ParseNatToString(v);
    if v >= 10 {
      assert c[0] == d[0];
    }
  }

  function Cells(row: seq<nat>): string {
    if row == [] then "" else Cells(row[..|row| - 1]) + Cell(row[|row| - 1])
  }

  const Prefix := "std::array{ "
  const Suffix := "},"

  /** The line printed for one matrix row. */
  function FormatRow(row: seq<nat>): string {
    Prefix + Cells(row) + Suffix
  }

  /** The printing loop: one line per row, each built cell by cell. */
  method PrintMatrix(matrix: seq<seq<nat>>) returns (lines: seq<string>)
    ensures |lines| == |matrix| && forall i :: 0 <= i < |matrix| ==> lines[i] == FormatRow(matrix[i])
  {
    lines := [];
    var i := 0;
    while i < |matrix|
      invariant i <= |matrix| && |lines| == i
      invariant forall r :: 0 <= r < i ==> lines[r] == FormatRow(matrix[r])
    {
      var row := matrix[i];
      var line := Prefix;
      var c := 0;
      while c < |row|
        invariant c <= |row| && line == Prefix + Cells(row[..c])
      {
        assert row[..c + 1][..c] == row[..c];
        line := line + Cell(row[c]);
        c := c + 1;
      }
      assert row[..c] == row;
      line := line + Suffix;
      lines := lines + [line];
      i := i + 1;
    }
  }

  // ---------------------------------------------------------------------------
  // Reading a row back
  // ---------------------------------------------------------------------------

  /** Where the run of digits that ends s begins. */
  function DigitRunStart(s: string): (k: nat)
    ensures k <= |s| && AllDigits(s[k..])
    ensures k > 0 ==> !IsDigit(s[k - 1])
  {
    if s == [] || !IsDigit(s[|s| - 1]) then |s|
    else
      var k := DigitRunStart(s[..|s| - 1]);
      assert s[k..] == s[..|s| - 1][k..] + [s[|s| - 1]];
      k
  }

  /** The values of a run of cells, read from the back: drop ", ", read the
      digits, and drop the padding space of a one-digit value. */
  function ParseCells(s: string): seq<nat>
    decreases |s|
  {
    if |s| < 3 then []
    else
      var body := s[..|s| - 2];
      var k := DigitRunStart(body);
      if k == |body| then []
      else
        var rest := if |body| - k == 1 && k > 0 then body[..k - 1] else body[..k];
        ParseCells(rest) + [ParseNat(body[k..])]
  }

  /** Reads a printed line back into its row. */
  function ParseRow(line: string): seq<nat> {
    if |line| < |Prefix| + |Suffix| then []
    else ParseCells(line[|Prefix|..|line| - |Suffix|])
  }

  lemma DigitRunAfter(x: string, d: string)
    requires AllDigits(d) && |d| >= 1
    requires x == [] || !IsDigit(x[|x| - 1])
    ensures DigitRunStart(x + d) == |x|
    decreases |d|
  {
    var s := x + d;
    if |d| == 1 {
      assert s[..|s| - 1] == x;
    } else {
      assert s[..|s| - 1] == x + d[..|d| - 1];
      DigitRunAfter(x, d[..|d| - 1]);
    }
  }

  /** Cells end in a space. */
  lemma CellsEnd(row: seq<nat>)
    ensures Cells(row) == [] || Cells(row)[|Cells(row)| - 1] == ' '
  {
  }

  /** The padding Cell puts before a value's digits. */
  function Pad(v: nat): string {
    if |NatToString(v)| < 2 then " " else ""
  }

  /** Without its ", ", the text x + Cell(v) is x, the padding and the digits;
      the digits are preceded by a space or nothing. */
  lemma CellBody(x: string, v: nat)
    requires x == [] || x[|x| - 1] == ' '
    ensures var s := x + Cell(v);
      && |s| >= 2 && s[..|s| - 2] == (x + Pad(v)) + NatToString(v)
      && (x + Pad(v) == [] || (x + Pad(v))[|x + Pad(v)| - 1] == ' ')
  {
    var y := x + Pad(v);
    var s := x + Cell(v);
    assert s == y + NatToString(v) + ", ";
    if Pad(v) != "" {
      assert y[|y| - 1] == Pad(v)[0];
    } else {
      assert y == x;
    }
  }

  /** ParseCells on text whose last ", " follows the digits of one value. */
  lemma ParseCellsBack(s: string, y: string, digits: string)
    requires |s| >= 2 && s[..|s| - 2] == y + digits
    requires AllDigits(digits) && |digits| >= 1
    requires y == [] || !IsDigit(y[|y| - 1])
    ensures ParseCells(s) ==
      ParseCells(if |digits| == 1 && |y| > 0 then y[..|y| - 1] else y) + [ParseNat(digits)]
  {
    var body := s[..|s| - 2];
    assert |s| >= 3;
    DigitRunAfter(y, digits);
    assert body[|y|..] == digits;
    assert body[..|y|] == y;
    if |digits| == 1 && |y| > 0 {
      assert body[..|y| - 1] == y[..|y| - 1];
    }
  }

  /** Reading one cell off the back of a run of cells. */
  lemma ParseCellsStep(x: string, v: nat)
    requires x == [] || x[|x| - 1] == ' '
    ensures ParseCells(x + Cell(v)) == ParseCells(x) + [v]
  {
    var y := x + Pad(v);
    CellBody(x, v);
    ParseCellsBack(x + Cell(v), y, NatToString(v));
    ParseNatToString(v);
    var rest := if |NatToString(v)| == 1 && |y| > 0 then y[..|y| - 1] else y;
    if |NatToString(v)| == 1 {
      assert Pad(v) == " ";
      assert rest == x;
    } else {
      assert Pad(v) == "";
      assert rest == x;
    }
  }

  /** Printing and reading back give the row again. */
  lemma {:induction false} ParseCellsRoundTrip(row: seq<nat>)
    ensures ParseCells(Cells(row)) == row
  {
    if row != [] {
      var init, v := row[..|row| - 1], row[|row| - 1];
      assert Cells(row) == Cells(init) + Cell(v);
      CellsEnd(init);
      ParseCellsStep(Cells(init), v);
      ParseCellsRoundTrip(init);
      assert row == init + [v];
    }
  }

  lemma FormatRowRoundTrip(row: seq<nat>)
    ensures ParseRow(FormatRow(row)) == row
  {
    var line := FormatRow(row);
    assert line[|Prefix|..|line| - |Suffix|] == Cells(row);
    ParseCellsRoundTrip(row);
  }
}
