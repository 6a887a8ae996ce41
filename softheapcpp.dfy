/**
 * The template soft heap `SoftHeapCpp` (SoftHeapCpp/SoftHeapCpp.h): a list of
 * heads, each owning the root of a tree of `Node`s.  A node keeps a list of
 * values (its front value is its key) and a vector of children tagged with
 * ranks; the rank of a node is the rank of its front child.  Every head points
 * at the head of least key among itself and the heads after it (its suffix
 * minimum), which `DeleteMin` follows from the front head.
 *
 * Nodes are owned through moved `shared_ptr`s only, so they are modelled as
 * values; the list of heads is a `seq<Head>` field of the heap class, and a
 * suffix-minimum pointer is stored as the offset from its head to the head it
 * points at.
 */
module SoftHeapCpp {
  import opened Wrappers
  import opened ComparableObject

  datatype Node = Node(values: seq<int>, childs: seq<Child>)
  /** `ChildPerRank`: a child node tagged with its rank. */
  datatype Child = Child(rank: nat, child: Node)
  /** A head: its root and the offset of its suffix minimum (0 = itself). */
  datatype Head = Head(root: Node, off: nat)

  // ---------------------------------------------------------------------------
  // Items and node counts of trees
  // ---------------------------------------------------------------------------

  /** Every child node of `cs` lies strictly inside the anchor node `n`.  The
      sums over children below carry such an anchor so that their recursion
      is well founded. */
  ghost predicate Within(n: Node, cs: seq<Child>) {
    forall i :: 0 <= i < |cs| ==> (n decreases to cs[i].child)
  }

  /** All values stored in the tree rooted at `n`. */
  function Items(n: Node): multiset<int>
    decreases n, 1
  {
    assert Within(n, n.childs);
    multiset(n.values) + Forest(n, n.childs)
  }

  function Forest(ghost n: Node, cs: seq<Child>): multiset<int>
    requires Within(n, cs)
    decreases n, 0, |cs|
  {
    if cs == [] then multiset{} else Forest(n, cs[..|cs| - 1]) + Items(cs[|cs| - 1].child)
  }

  /** The number of nodes of the tree rooted at `n`. */
  function Count(n: Node): nat
    decreases n, 1
  {
    assert Within(n, n.childs);
    1 + ForestCount(n, n.childs)
  }

  function ForestCount(ghost n: Node, cs: seq<Child>): nat
    requires Within(n, cs)
    decreases n, 0, |cs|
  {
    if cs == [] then 0 else ForestCount(n, cs[..|cs| - 1]) + Count(cs[|cs| - 1].child)
  }

  /** Two child lists holding the same nodes in the same order (ranks may differ). */
  predicate SameNodes(a: seq<Child>, b: seq<Child>) {
    |a| == |b| && forall i :: 0 <= i < |a| ==> a[i].child == b[i].child
  }

  /** The sums depend only on the child nodes, not on the anchor or the ranks. */
  lemma {:induction false} ForestNodes(x: Node, a: seq<Child>, y: Node, b: seq<Child>)
    requires Within(x, a) && Within(y, b) && SameNodes(a, b)
    ensures Forest(x, a) == Forest(y, b)
    ensures ForestCount(x, a) == ForestCount(y, b)
    decreases |a|
  {
    if a != [] {
      ForestNodes(x, a[..|a| - 1], y, b[..|b| - 1]);
    }
  }

  lemma {:induction false} ForestAppend(x: Node, a: seq<Child>, b: seq<Child>)
    requires Within(x, a + b)
    ensures Within(x, a) && Within(x, b)
    ensures Forest(x, a + b) == Forest(x, a) + Forest(x, b)
    ensures ForestCount(x, a + b) == ForestCount(x, a) + ForestCount(x, b)
    decreases |b|
  {
    assert forall i :: 0 <= i < |a| ==> a[i] == (a + b)[i];
    assert forall i :: 0 <= i < |b| ==> b[i] == (a + b)[|a| + i];
    if b != [] {
      assert (a + b)[..|a + b| - 1] == a + b[..|b| - 1];
      assert (a + b)[|a + b| - 1] == b[|b| - 1];
      ForestAppend(x, a, b[..|b| - 1]);
      assert Forest(x, a + b) == Forest(x, a + b[..|b| - 1]) + Items(b[|b| - 1].child);
      assert ForestCount(x, a + b) == ForestCount(x, a + b[..|b| - 1]) + Count(b[|b| - 1].child);
    } else {
      assert a + b == a;
    }
  }

  // ---------------------------------------------------------------------------
  // Node getters and modifiers (`Details::Node`)
  // ---------------------------------------------------------------------------

  /** `Node::Ckey`: the front value, or null when the value list is empty. */
  function Ckey(n: Node): (k: Key)
    ensures k.Null? <==> n.values == []
    ensures k.Ptr? ==> k.value == n.values[0] && k.value in Items(n)
  {
    if n.values == [] then Null else Ptr(n.values[0])
  }

  /** `Node::GetRank`: the rank of the front child, 0 without children. */
  function Rank(n: Node): nat {
    if n.childs == [] then 0 else n.childs[0].rank
  }

  /** `Node::IsNeedRemeldChilds`: fewer children than half the rank. */
  predicate NeedsRemeld(n: Node) {
    |n.childs| < Rank(n) / 2
  }

  /** `Node::Meld`: `another` becomes the new front child, one rank above the old front. */
  function Adopt(n: Node, another: Node): (m: Node)
    ensures m.values == n.values && |m.childs| == |n.childs| + 1 && m.childs[1..] == n.childs
    ensures Rank(m) == Rank(n) + 1 && m.childs[0].child == another
  {
    Node(n.values, [Child(Rank(n) + 1, another)] + n.childs)
  }

  lemma AdoptSums(n: Node, another: Node)
    ensures Items(Adopt(n, another)) == Items(n) + Items(another)
    ensures Count(Adopt(n, another)) == Count(n) + Count(another)
  {
    var m := Adopt(n, another);
    assert Within(m, m.childs);
    ForestAppend(m, [Child(Rank(n) + 1, another)], n.childs);
    assert [Child(Rank(n) + 1, another)][..0] == [];
    ForestNodes(m, n.childs, n, n.childs);
  }

  /** `Head::Meld`: the root of smaller key adopts the other; on equal keys
      (and whenever this root is null) the incoming root wins. */
  function HeadMeld(mine: Node, another: Node): Node {
    if GreaterEq(Ckey(mine), Ckey(another)) then Adopt(another, mine) else Adopt(mine, another)
  }

  /** Melding keeps every item and node, moves the smaller key to the top, and
      raises the rank of two equal-rank roots by one. */
  lemma HeadMeldOk(mine: Node, another: Node)
    ensures Items(HeadMeld(mine, another)) == Items(mine) + Items(another)
    ensures Count(HeadMeld(mine, another)) == Count(mine) + Count(another)
    ensures LessEq(Ckey(HeadMeld(mine, another)), Ckey(mine))
    ensures LessEq(Ckey(HeadMeld(mine, another)), Ckey(another))
    ensures Rank(mine) == Rank(another) ==> Rank(HeadMeld(mine, another)) == Rank(mine) + 1
  {
    AdoptSums(mine, another);
    AdoptSums(another, mine);
  }

  /** The children of a removed child as they are appended to its parent:
      the first one takes the removed child's rank. */
  function Lift(l: Node, rank: nat): (t: seq<Child>)
    ensures SameNodes(t, l.childs)
    ensures t != [] ==> t[0].rank == rank && t[1..] == l.childs[1..]
  {
    if l.childs == [] then [] else [Child(rank, l.childs[0].child)] + l.childs[1..]
  }

  /** `Node::SiftImpl`: the last child is removed; its values go in front of
      this node's values and its children are appended after the others. */
  function SiftImpl(n: Node): (s: Node)
    ensures |s.childs| >= |n.childs| - 1
    ensures forall i :: 0 <= i < |n.childs| - 1 ==> s.childs[i] == n.childs[i]
  {
    if n.childs == [] then n
    else
      var last := n.childs[|n.childs| - 1];
      Node(last.child.values + n.values, n.childs[..|n.childs| - 1] + Lift(last.child, last.rank))
  }

  lemma ForestOne(x: Node, c: Child)
    requires Within(x, [c])
    ensures Forest(x, [c]) == Items(c.child) && ForestCount(x, [c]) == Count(c.child)
  {
    assert [c][..0] == [];
  }

  lemma ForestSnoc(n: Node, k: nat)
    requires k < |n.childs| && Within(n, n.childs)
    ensures Within(n, n.childs[..k]) && Within(n, n.childs[..k + 1])
    ensures Forest(n, n.childs[..k + 1]) == Forest(n, n.childs[..k]) + Items(n.childs[k].child)
    ensures ForestCount(n, n.childs[..k + 1]) == ForestCount(n, n.childs[..k]) + Count(n.childs[k].child)
  {
    assert n.childs[..k + 1][..k] == n.childs[..k];
  }

  /** The sums of a root without values are those of its children. */
  lemma RootSums(n: Node)
    requires n.values == []
    ensures Within(n, n.childs)
    ensures Items(n) == Forest(n, n.childs) && Count(n) == 1 + ForestCount(n, n.childs)
  {
    assert Within(n, n.childs);
  }

  /** `Node::PopFront`: the front value leaves the node. */
  function PopFront(n: Node): (m: Node)
    requires n.values != []
    ensures Items(m) + multiset{n.values[0]} == Items(n)
    ensures Count(m) == Count(n) && Rank(m) == Rank(n)
  {
    assert Within(n, n.childs);
    NodeSums(n.values, n.childs, n);
    NodeSums(n.values[1..], n.childs, n);
    assert n.values == [n.values[0]] + n.values[1..];
    Node(n.values[1..], n.childs)
  }

  /** The sums of a node given the sums of its children under any anchor. */
  lemma NodeSums(v: seq<int>, cs: seq<Child>, x: Node)
    requires Within(x, cs)
    ensures Items(Node(v, cs)) == multiset(v) + Forest(x, cs)
    ensures Count(Node(v, cs)) == 1 + ForestCount(x, cs)
  {
    var m := Node(v, cs);
    assert Within(m, m.childs);
    ForestNodes(m, cs, x, cs);
  }

  lemma LastChildSums(n: Node)
    requires n.childs != []
    ensures Within(n, n.childs[..|n.childs| - 1])
    ensures Items(n) == multiset(n.values) + Forest(n, n.childs[..|n.childs| - 1])
      + Items(n.childs[|n.childs| - 1].child)
    ensures Count(n) == 1 + ForestCount(n, n.childs[..|n.childs| - 1])
      + Count(n.childs[|n.childs| - 1].child)
  {
    assert Within(n, n.childs);
  }

  lemma LiftWithin(n: Node)
    requires n.childs != []
    ensures Within(n, n.childs[..|n.childs| - 1] + Lift(n.childs[|n.childs| - 1].child, n.childs[|n.childs| - 1].rank))
  {
    var last := n.childs[|n.childs| - 1];
    var cs := n.childs[..|n.childs| - 1] + Lift(last.child, last.rank);
    assert n decreases to last.child;
    forall i | 0 <= i < |cs| ensures n decreases to cs[i].child {
      if i >= |n.childs| - 1 {
        assert cs[i].child == last.child.childs[i - (|n.childs| - 1)].child;
      }
    }
  }

  lemma SiftImplSums(n: Node)
    ensures Items(SiftImpl(n)) == Items(n)
    ensures Count(SiftImpl(n)) == if n.childs == [] then Count(n) else Count(n) - 1
  {
    if n.childs != [] {
      var last := n.childs[|n.childs| - 1];
      var l := last.child;
      var rest := n.childs[..|n.childs| - 1];
      var tail := Lift(l, last.rank);
      LastChildSums(n);
      LiftWithin(n);
      NodeSums(l.values + n.values, rest + tail, n);
      ForestAppend(n, rest, tail);
      assert Within(l, l.childs);
      ForestNodes(n, tail, l, l.childs);
      NodeSums(l.values, l.childs, l);
    }
  }

  /** Every child rank is at most `r`, so no second sift can be triggered. */
  predicate RanksWithin(n: Node, r: nat) {
    forall i :: 0 <= i < |n.childs| ==> n.childs[i].rank <= r
  }

  /** The second-sift condition of `Node::SiftDown` for a child entry. */
  predicate SiftAgain(c: Child, r: nat) {
    c.rank > r && (c.rank % 2 == 1 || Rank(c.child) < c.rank - 1)
  }

  /** The state of `Node::SiftDown` for the original node `n` once the
      entries after `i` have been visited: the entries up to `i` are the
      original ones, items are kept and at least one node has gone. */
  ghost predicate Sifting(n: Node, m: Node, r: nat, i: int, end: nat) {
    && end - 2 <= i <= |n.childs| - 2
    && i + 1 <= |m.childs|
    && (forall k :: 0 <= k <= i ==> m.childs[k] == n.childs[k])
    && Items(m) == Items(n)
    && Count(m) <= Count(n) && (n.childs != [] ==> Count(m) < Count(n))
    && (RanksWithin(n, r) ==> m == SiftImpl(n))
  }

  lemma SiftingStart(n: Node, r: nat, end: nat)
    requires end <= |n.childs|
    ensures Sifting(n, SiftImpl(n), r, |n.childs| - 2, end)
  {
    SiftImplSums(n);
  }

  lemma SiftingSkip(n: Node, m: Node, r: nat, i: int, end: nat)
    requires Sifting(n, m, r, i, end) && i >= end
    ensures Sifting(n, m, r, i - 1, end)
  {
  }

  lemma SiftingRecurse(n: Node, m: Node, m': Node, r: nat, i: int, end: nat)
    requires Sifting(n, m, r, i, end) && i >= end && SiftAgain(m.childs[i], r)
    requires Items(m') == Items(m) && Count(m') <= Count(m)
    requires |m'.childs| >= i && m'.childs[..i] == m.childs[..i]
    ensures Sifting(n, m', r, i - 1, end)
  {
    forall k | 0 <= k <= i - 1 ensures m'.childs[k] == n.childs[k] {
      assert m'.childs[..i][k] == m.childs[..i][k];
    }
  }

  lemma SiftingEnd(n: Node, m: Node, r: nat, i: int, end: nat)
    requires Sifting(n, m, r, i, end) && i < end && end >= 1
    ensures |m.childs| >= end - 1 && m.childs[..end - 1] == n.childs[..end - 1]
  {
    if i == end - 2 {
      SiftImplSums(n);
    }
  }

  /** `Node::SiftDown(end)`: one `SiftImpl`, then, from the entry before the
      removed one down to `end`, a recursive sift behind every entry that
      meets the second-sift condition.  Entries before `end - 1` are never
      touched; items are kept and at least one node disappears whenever
      there was a child; with all ranks within `r` it is exactly `SiftImpl`. */
  method SiftDown(n: Node, r: nat, end: nat) returns (m: Node)
    requires end <= |n.childs|
    ensures Items(m) == Items(n)
    ensures Count(m) <= Count(n) && (n.childs != [] ==> Count(m) < Count(n))
    ensures end >= 1 ==> |m.childs| >= end - 1 && m.childs[..end - 1] == n.childs[..end - 1]
    ensures RanksWithin(n, r) ==> m == SiftImpl(n)
    decreases Count(n)
  {
    var i: int := |n.childs| - 2;
    m := SiftImpl(n);
    SiftingStart(n, r, end);
    while i >= end
      invariant Sifting(n, m, r, i, end)
      decreases i
    {
      if SiftAgain(m.childs[i], r) {
        var m' := SiftDown(m, r, i + 1);
        SiftingRecurse(n, m, m', r, i, end);
        m := m';
      } else {
        SiftingSkip(n, m, r, i, end);
      }
      i := i - 1;
    }
    if end >= 1 {
      SiftingEnd(n, m, r, i, end);
    }
  }

  /** `Node::Sift`. */
  method Sift(n: Node, r: nat) returns (m: Node)
    ensures Items(m) == Items(n)
    ensures Count(m) <= Count(n) && (n.childs != [] ==> Count(m) < Count(n))
    ensures n.childs == [] ==> m == n
    ensures RanksWithin(n, r) ==> m == SiftImpl(n)
  {
    m := SiftDown(n, r, 0);
  }

  /** The sift refills an empty root from its LAST child, not from the child
      of least key: here the root takes 5 although 1 is still below it. */
  lemma SiftTakesLastChild()
    ensures var n := Node([], [Child(2, Node([1], [Child(1, Node([6], []))])), Child(1, Node([5], []))]);
      Ckey(SiftImpl(n)) == Ptr(5) && 1 in Items(SiftImpl(n))
  {
    var n1 := Node([1], [Child(1, Node([6], []))]);
    var n := Node([], [Child(2, n1), Child(1, Node([5], []))]);
    var s := SiftImpl(n);
    assert s == Node([5], [Child(2, n1)]);
    assert Within(s, s.childs);
    assert s.childs[..0] == [];
    assert Items(n1) == multiset{1} + Forest(n1, n1.childs);
  }

  // ---------------------------------------------------------------------------
  // Lists of heads
  // ---------------------------------------------------------------------------

  function HeadsItems(hs: seq<Head>): multiset<int> {
    if hs == [] then multiset{} else Items(hs[0].root) + HeadsItems(hs[1..])
  }

  function HeadsCount(hs: seq<Head>): nat {
    if hs == [] then 0 else Count(hs[0].root) + HeadsCount(hs[1..])
  }

  lemma {:induction false} HeadsAppend(a: seq<Head>, b: seq<Head>)
    ensures HeadsItems(a + b) == HeadsItems(a) + HeadsItems(b)
    ensures HeadsCount(a + b) == HeadsCount(a) + HeadsCount(b)
  {
    if a != [] {
      assert (a + b)[1..] == a[1..] + b;
      assert (a + b)[0] == a[0];
      HeadsAppend(a[1..], b);
    } else {
      assert a + b == b;
    }
  }

  lemma HeadsSameRoots(a: seq<Head>, b: seq<Head>)
    requires |a| == |b| && forall j :: 0 <= j < |a| ==> a[j].root == b[j].root
    ensures HeadsItems(a) == HeadsItems(b) && HeadsCount(a) == HeadsCount(b)
  {
    if a != [] {
      HeadsSameRoots(a[1..], b[1..]);
    }
  }

  lemma HeadsCons(h: Head, t: seq<Head>)
    ensures HeadsItems([h] + t) == Items(h.root) + HeadsItems(t)
    ensures HeadsCount([h] + t) == Count(h.root) + HeadsCount(t)
  {
    assert ([h] + t)[1..] == t;
  }

  /** Sums around one position `p`. */
  lemma HeadsSplit(hs: seq<Head>, p: nat)
    requires p < |hs|
    ensures HeadsItems(hs) == HeadsItems(hs[..p]) + (Items(hs[p].root) + HeadsItems(hs[p + 1..]))
    ensures HeadsCount(hs) == HeadsCount(hs[..p]) + (Count(hs[p].root) + HeadsCount(hs[p + 1..]))
  {
    Cut(hs, p);
    HeadsAppend(hs[..p], [hs[p]] + hs[p + 1..]);
    HeadsCons(hs[p], hs[p + 1..]);
  }

  lemma Cut(hs: seq<Head>, p: nat)
    requires p < |hs|
    ensures hs == hs[..p] + ([hs[p]] + hs[p + 1..])
  {
  }

  lemma HeadsErase(hs: seq<Head>, p: nat)
    requires p < |hs|
    ensures HeadsItems(hs[..p] + hs[p + 1..]) + Items(hs[p].root) == HeadsItems(hs)
    ensures HeadsCount(hs[..p] + hs[p + 1..]) + Count(hs[p].root) == HeadsCount(hs)
  {
    HeadsSplit(hs, p);
    HeadsAppend(hs[..p], hs[p + 1..]);
  }

  lemma HeadsInsert(hs: seq<Head>, p: nat, h: Head)
    requires p <= |hs|
    ensures HeadsItems(hs[..p] + [h] + hs[p..]) == HeadsItems(hs) + Items(h.root)
    ensures HeadsCount(hs[..p] + [h] + hs[p..]) == HeadsCount(hs) + Count(h.root)
  {
    var a, b := hs[..p], hs[p..];
    assert hs[..p] + [h] + hs[p..] == a + ([h] + b);
    assert hs == a + b;
    HeadsAppend(a, [h] + b);
    HeadsCons(h, b);
    HeadsAppend(a, b);
    Shuffle(HeadsItems(a), HeadsItems(b), Items(h.root));
  }

  lemma Shuffle(x: multiset<int>, y: multiset<int>, z: multiset<int>)
    ensures x + (z + y) == (x + y) + z
  {
  }

  lemma HeadsReplace(hs: seq<Head>, p: nat, h: Head)
    requires p < |hs|
    ensures HeadsItems(hs[p := h]) + Items(hs[p].root) == HeadsItems(hs) + Items(h.root)
    ensures HeadsCount(hs[p := h]) + Count(hs[p].root) == HeadsCount(hs) + Count(h.root)
  {
    HeadsSplit(hs, p);
    HeadsSplit(hs[p := h], p);
    assert hs[p := h][..p] == hs[..p] && hs[p := h][p + 1..] == hs[p + 1..];
  }

  lemma TakeOne(now: multiset<int>, rest: multiset<int>, before: multiset<int>, x: int)
    requires now + (rest + multiset{x}) == before + rest
    ensures x in before && now == before - multiset{x}
  {
    forall y ensures (now + multiset{x})[y] == before[y] {
      assert (now + (rest + multiset{x}))[y] == (before + rest)[y];
    }
    assert now + multiset{x} == before;
  }

  lemma Cancel(a: multiset<int>, b: multiset<int>, x: multiset<int>)
    requires a + x == b + x
    ensures a == b
  {
    forall y ensures a[y] == b[y] {
      assert (a + x)[y] == (b + x)[y];
    }
  }

  /** Every suffix-minimum offset stays inside the list. */
  predicate InRange(hs: seq<Head>) {
    forall j :: 0 <= j < |hs| ==> j + hs[j].off < |hs|
  }

  /** The head at `i` points at itself when its key is below that of the head
      the next head points at, and at that same head otherwise (the last head
      points at itself): the relation `FixMinList` establishes at each head. */
  ghost predicate Linked(hs: seq<Head>, i: nat)
    requires i < |hs|
  {
    if i + 1 == |hs| then hs[i].off == 0
    else
      var t := i + 1 + hs[i + 1].off;
      t < |hs| &&
      if Less(Ckey(hs[i].root), Ckey(hs[t].root)) then hs[i].off == 0 else i + hs[i].off == t
  }

  ghost predicate AllLinked(hs: seq<Head>) {
    forall i :: 0 <= i < |hs| ==> Linked(hs, i)
  }

  /** Whether a head is linked depends only on the heads from it onwards. */
  lemma LinkedSuffix(a: seq<Head>, i: nat, b: seq<Head>, j: nat)
    requires i < |a| && j < |b| && a[i..] == b[j..]
    ensures Linked(a, i) <==> Linked(b, j)
  {
    assert |a| - i == |b| - j;
    forall k | i <= k < |a| ensures a[k] == b[k - i + j] {
      assert a[i..][k - i] == b[j..][k - i];
    }
  }

  lemma LinkedInRange(hs: seq<Head>, i: nat)
    requires i < |hs| && Linked(hs, i)
    ensures i + hs[i].off < |hs|
  {
  }

  /** Once every head is linked, each head points at a head of least key
      among itself and all the heads after it. */
  lemma {:induction false} SuffixMinIsLeast(hs: seq<Head>, i: nat)
    requires AllLinked(hs) && i < |hs|
    ensures i + hs[i].off < |hs|
    ensures forall j :: i <= j < |hs| ==> LessEq(Ckey(hs[i + hs[i].off].root), Ckey(hs[j].root))
    decreases |hs| - i
  {
    assert Linked(hs, i);
    if i + 1 < |hs| {
      SuffixMinIsLeast(hs, i + 1);
      var t := i + 1 + hs[i + 1].off;
      forall j | i <= j < |hs|
        ensures LessEq(Ckey(hs[i + hs[i].off].root), Ckey(hs[j].root))
      {
        if j > i {
          assert LessEq(Ckey(hs[t].root), Ckey(hs[j].root));
          LessIsStrictTotalOrder(Ckey(hs[i].root), Ckey(hs[t].root), Ckey(hs[j].root));
          DerivedOperators(Ckey(hs[t].root), Ckey(hs[j].root));
          EqIsValueEquality(Ckey(hs[t].root), Ckey(hs[j].root));
        }
      }
    }
  }

  /** Setting the head at `i` keeps every later head linked. */
  lemma LinkedAfterSet(hs: seq<Head>, i: nat, hs': seq<Head>, e: int)
    requires i < |hs| == |hs'| && e < |hs|
    requires forall j :: i < j < |hs| ==> hs'[j] == hs[j]
    requires forall j :: i < j <= e ==> Linked(hs, j)
    ensures forall j :: i < j <= e ==> Linked(hs', j)
  {
    forall j | i < j <= e ensures Linked(hs', j) {
      assert hs'[j..] == hs[j..];
      LinkedSuffix(hs, j, hs', j);
    }
  }

  /** `std::find_if` for the first head whose rank is at least `rank`. */
  method FirstAtLeast(hs: seq<Head>, rank: nat) returns (p: nat)
    ensures p <= |hs|
    ensures forall j :: 0 <= j < p ==> Rank(hs[j].root) < rank
    ensures p < |hs| ==> rank <= Rank(hs[p].root)
  {
    p := 0;
    while p < |hs| && Rank(hs[p].root) < rank
      invariant p <= |hs|
      invariant forall j :: 0 <= j < p ==> Rank(hs[j].root) < rank
    {
      p := p + 1;
    }
  }

  /** The head the sift of a candidate leaves behind is unlinked when its root
      is `Empty`, that is, has no values (SoftHeapCpp.h:259-262), even when it
      still has children. */
  predicate UnlinkAsWritten(n: Node) {
    n.values == []
  }

  /** The unlink condition the rest of the model uses: no values and no children. */
  predicate Unlink(n: Node) {
    n.values == [] && n.childs == []
  }

  /** Unlinking as written drops items: after the sift of the hand-traced
      sequence Insert 1, DeleteMin, Insert 2, 3, 4, DeleteMin, Insert 9,
      DeleteMin, DeleteMin (r = 10000) the root is `Empty` but still holds 3 and 4. */
  lemma UnlinkAsWrittenLosesItems()
    ensures var n2 := Node([], [Child(2, Node([3], [Child(1, Node([4], []))])), Child(1, Node([], []))]);
      UnlinkAsWritten(SiftImpl(n2)) && Items(SiftImpl(n2)) == multiset{3, 4}
  {
    var n4 := Node([4], []);
    var n3 := Node([3], [Child(1, n4)]);
    var n2 := Node([], [Child(2, n3), Child(1, Node([], []))]);
    var s := Node([], [Child(2, n3)]);
    assert SiftImpl(n2) == s;
    NodeSums([4], [], n4);
    assert Items(n4) == multiset{4};
    assert Within(n3, n3.childs);
    ForestOne(n3, Child(1, n4));
    NodeSums([3], [Child(1, n4)], n3);
    assert Items(n3) == multiset{3} + multiset{4};
    assert Within(s, s.childs);
    ForestOne(s, Child(2, n3));
    NodeSums([], [Child(2, n3)], s);
    assert Items(s) == Items(n3);
  }

  /** The corrected condition only unlinks heads that own nothing. */
  lemma UnlinkKeepsItems(n: Node)
    requires Unlink(n)
    ensures Items(n) == multiset{} && Count(n) == 1
  {
  }

  /** The heads before `lo` all have rank below `rank`. */
  predicate RanksBelow(hs: seq<Head>, lo: nat, rank: nat) {
    forall j :: 0 <= j < lo && j < |hs| ==> Rank(hs[j].root) < rank
  }

  /** The suffix minima from `lo` on are in range. */
  predicate InRangeFrom(hs: seq<Head>, lo: nat) {
    forall j :: lo <= j < |hs| ==> j + hs[j].off < |hs|
  }

  /** The heads from `lo` on are linked. */
  ghost predicate LinkedFrom(hs: seq<Head>, lo: nat) {
    forall j :: lo <= j < |hs| ==> Linked(hs, j)
  }

  /** The state of the heap's `Meld` while it carries root `h`: the heads
      before `lo` have lower rank than `h`, the suffix minima from `lo` on
      are in range (and linked, if the list was linked on entry), and the
      list and `h` together hold the given items and nodes. */
  ghost predicate Carrying(hs: seq<Head>, lo: nat, h: Node, items: multiset<int>, count: nat, linked: bool) {
    && lo <= |hs|
    && RanksBelow(hs, lo, Rank(h))
    && InRangeFrom(hs, lo)
    && HeadsItems(hs) + Items(h) == items
    && HeadsCount(hs) + Count(h) == count
    && (linked ==> LinkedFrom(hs, lo))
  }

  /** Erasing the head at `p` keeps the later heads in range and linked. */
  lemma EraseKeepsLater(hs: seq<Head>, p: nat, linked: bool)
    requires p < |hs| && InRangeFrom(hs, p) && (linked ==> LinkedFrom(hs, p))
    ensures InRangeFrom(hs[..p] + hs[p + 1..], p)
    ensures linked ==> LinkedFrom(hs[..p] + hs[p + 1..], p)
  {
    var hs' := hs[..p] + hs[p + 1..];
    forall j | p <= j < |hs'| ensures hs'[j] == hs[j + 1] && hs'[j..] == hs[j + 1..] {
    }
    if linked {
      forall j | p <= j < |hs'| ensures Linked(hs', j) {
        LinkedSuffix(hs', j, hs, j + 1);
      }
    }
  }

  lemma EraseRanks(hs: seq<Head>, p: nat, rank: nat)
    requires p < |hs| && RanksBelow(hs, p, rank)
    ensures RanksBelow(hs[..p] + hs[p + 1..], p, rank + 1)
  {
    var hs' := hs[..p] + hs[p + 1..];
    forall j | 0 <= j < p ensures hs'[j] == hs[j] {
    }
  }

  lemma InRangeWider(hs: seq<Head>, lo: nat, p: nat)
    requires lo <= p && InRangeFrom(hs, lo)
    ensures InRangeFrom(hs, p)
  {
  }

  lemma LinkedWider(hs: seq<Head>, lo: nat, p: nat)
    requires lo <= p && LinkedFrom(hs, lo)
    ensures LinkedFrom(hs, p)
  {
  }

  lemma Regroup(rest: multiset<int>, x: multiset<int>, all: multiset<int>, h: multiset<int>,
                 melded: multiset<int>, items: multiset<int>)
    requires rest + x == all && melded == x + h && all + h == items
    ensures rest + melded == items
  {
  }

  lemma CarryingStep(hs: seq<Head>, lo: nat, h: Node, items: multiset<int>, count: nat, linked: bool, p: nat)
    requires Carrying(hs, lo, h, items, count, linked)
    requires p < |hs| && Rank(hs[p].root) == Rank(h) && RanksBelow(hs, p, Rank(h))
    ensures Carrying(hs[..p] + hs[p + 1..], p, HeadMeld(hs[p].root, h), items, count, linked)
  {
    var hs' := hs[..p] + hs[p + 1..];
    var h' := HeadMeld(hs[p].root, h);
    HeadMeldOk(hs[p].root, h);
    HeadsErase(hs, p);
    Regroup(HeadsItems(hs'), Items(hs[p].root), HeadsItems(hs), Items(h), Items(h'), items);
    assert p >= lo;
    InRangeWider(hs, lo, p);
    if linked {
      LinkedWider(hs, lo, p);
    }
    EraseKeepsLater(hs, p, linked);
    EraseRanks(hs, p, Rank(h));
  }

  /** Placing a head at `p` keeps the later heads in range and linked. */
  lemma InsertKeepsLater(hs: seq<Head>, p: nat, h: Head, linked: bool)
    requires p <= |hs| && InRangeFrom(hs, p) && (linked ==> LinkedFrom(hs, p))
    ensures InRangeFrom(hs[..p] + [h] + hs[p..], p + 1)
    ensures linked ==> LinkedFrom(hs[..p] + [h] + hs[p..], p + 1)
  {
    var hs' := hs[..p] + [h] + hs[p..];
    forall j | p < j < |hs'| ensures hs'[j] == hs[j - 1] && hs'[j..] == hs[j - 1..] {
    }
    if linked {
      forall j | p < j < |hs'| ensures Linked(hs', j) {
        LinkedSuffix(hs', j, hs, j - 1);
      }
    }
  }

  lemma CarryingPlace(hs: seq<Head>, lo: nat, h: Node, items: multiset<int>, count: nat, linked: bool, p: nat)
    requires Carrying(hs, lo, h, items, count, linked)
    requires p <= |hs| && (p == |hs| || Rank(h) <= Rank(hs[p].root)) && RanksBelow(hs, p, Rank(h))
    ensures p < |hs[..p] + [Head(h, 0)] + hs[p..]|
    ensures InRangeFrom(hs[..p] + [Head(h, 0)] + hs[p..], p + 1)
    ensures HeadsItems(hs[..p] + [Head(h, 0)] + hs[p..]) == items
    ensures HeadsCount(hs[..p] + [Head(h, 0)] + hs[p..]) == count
    ensures linked ==> LinkedFrom(hs[..p] + [Head(h, 0)] + hs[p..], p + 1)
  {
    HeadsInsert(hs, p, Head(h, 0));
    assert p >= lo;
    InRangeWider(hs, lo, p);
    if linked {
      LinkedWider(hs, lo, p);
    }
    InsertKeepsLater(hs, p, Head(h, 0), linked);
  }

  /** Ranks strictly increase along the list of heads. */
  predicate Ordered(hs: seq<Head>) {
    forall i, j :: 0 <= i < j < |hs| ==> Rank(hs[i].root) < Rank(hs[j].root)
  }

  lemma EraseOrdered(hs: seq<Head>, p: nat)
    requires p < |hs| && Ordered(hs)
    ensures Ordered(hs[..p] + hs[p + 1..])
  {
    var hs' := hs[..p] + hs[p + 1..];
    forall i, j | 0 <= i < j < |hs'| ensures Rank(hs'[i].root) < Rank(hs'[j].root) {
      var i0 := if i < p then i else i + 1;
      var j0 := if j < p then j else j + 1;
      assert hs'[i] == hs[i0] && hs'[j] == hs[j0];
    }
  }

  /** A head placed after the lower ranks and before the higher ones keeps the order. */
  lemma PlaceOrdered(hs: seq<Head>, p: nat, h: Head)
    requires p <= |hs| && Ordered(hs)
    requires RanksBelow(hs, p, Rank(h.root))
    requires p < |hs| ==> Rank(h.root) < Rank(hs[p].root)
    ensures Ordered(hs[..p] + [h] + hs[p..])
  {
    var hs' := hs[..p] + [h] + hs[p..];
    forall i, j | 0 <= i < j < |hs'| ensures Rank(hs'[i].root) < Rank(hs'[j].root) {
      if j < p {
        assert hs'[i] == hs[i] && hs'[j] == hs[j];
      } else if j == p {
        assert hs'[i] == hs[i] && hs'[j] == h;
      } else if i < p {
        assert hs'[i] == hs[i] && hs'[j] == hs[j - 1];
      } else if i == p {
        assert hs'[i] == h && hs'[j] == hs[j - 1];
        assert p == j - 1 || Rank(hs[p].root) < Rank(hs[j - 1].root);
      } else {
        assert hs'[i] == hs[i - 1] && hs'[j] == hs[j - 1];
      }
    }
  }

  /** The rank of a root is its front child's, so a sift can lower it: here
      the only child is absorbed and the rank falls from 1 to 0, which can
      leave two heads of equal rank in the list. */
  lemma SiftCanLowerRank()
    ensures var n := Node([], [Child(1, Node([5], []))]);
      Rank(n) == 1 && Rank(SiftImpl(n)) == 0 && SiftImpl(n).values == [5]
  {
  }

  /** After `FixMinList(p)` on a list linked after `p`, every head is linked. */
  lemma FixedLinked(placed: seq<Head>, hs: seq<Head>, p: nat)
    requires |hs| == |placed| && p < |hs|
    requires forall j :: p < j < |hs| ==> hs[j] == placed[j]
    requires LinkedFrom(placed, p + 1)
    requires forall j :: 0 <= j <= p ==> Linked(hs, j)
    ensures AllLinked(hs)
  {
    forall j | p < j < |hs| ensures Linked(hs, j) {
      assert hs[j..] == placed[j..];
      LinkedSuffix(hs, j, placed, j);
    }
  }

  // ---------------------------------------------------------------------------
  // The heap
  // ---------------------------------------------------------------------------

  class SoftHeapCpp {
    const r: nat
    var queues: seq<Head>

    ghost predicate Valid()
      reads this
    {
      InRange(queues)
    }

    function Contents(): multiset<int>
      reads this
    {
      HeadsItems(queues)
    }

    function Nodes(): nat
      reads this
    {
      HeadsCount(queues)
    }

    constructor(r: nat)
      ensures this.r == r && queues == [] && Valid()
    {
      this.r := r;
      queues := [];
    }

    /** `FixMinList(end)`: recomputes the suffix minimum of the heads from
        `end` back to the front, starting from the head after `end` (or from
        `end` itself when it is the last); only strictly smaller keys move it,
        so on ties the later head stays the minimum. */
    method FixMinList(end: nat)
      modifies this
      requires end < |queues|
      requires forall j :: end < j < |queues| ==> j + queues[j].off < |queues|
      ensures |queues| == old(|queues|)
      ensures forall j :: 0 <= j < |queues| ==> queues[j].root == old(queues[j].root)
      ensures forall j :: end < j < |queues| ==> queues[j] == old(queues[j])
      ensures forall j :: 0 <= j <= end ==> Linked(queues, j)
      ensures Valid()
    {
      var cur := end;
      if end + 1 < |queues| {
        cur := end + 1 + queues[end + 1].off;
      }
      var i: int := end;
      while i >= 0
        invariant -1 <= i <= end
        invariant |queues| == old(|queues|)
        invariant forall j :: 0 <= j < |queues| ==> queues[j].root == old(queues[j].root)
        invariant forall j :: i < j < |queues| && end < j ==> queues[j] == old(queues[j])
        invariant forall j :: 0 <= j <= i ==> queues[j] == old(queues[j])
        invariant i < cur < |queues| || (i == end && cur == end && end + 1 == |queues|)
        invariant i + 1 < |queues| ==> cur == i + 1 + queues[i + 1].off
        invariant forall j :: i < j <= end ==> Linked(queues, j)
      {
        if Less(Ckey(queues[i].root), Ckey(queues[cur].root)) {
          cur := i;
        }
        ghost var before := queues;
        queues := queues[i := Head(queues[i].root, cur - i)];
        LinkedAfterSet(before, i, queues, end);
        i := i - 1;
      }
      forall j | 0 <= j < |queues| ensures j + queues[j].off < |queues| {
        if j <= end {
          LinkedInRange(queues, j);
        }
      }
    }

    /** `Meld(new_head)`: while a head of the same rank exists, the two are
        melded and the result carried on with the next rank; then the carried
        root is placed before the first head of higher rank and the suffix
        minima before it are recomputed.  Items and nodes are kept, and a list
        whose every head was linked stays so. */
    method Meld(h0: Node)
      modifies this
      requires Valid()
      ensures Valid()
      ensures Contents() == old(Contents()) + Items(h0)
      ensures Nodes() == old(Nodes()) + Count(h0)
      ensures 1 <= |queues| <= old(|queues|) + 1
      ensures old(AllLinked(queues)) ==> AllLinked(queues)
      ensures old(Ordered(queues)) ==> Ordered(queues)
    {
      var h := h0;
      ghost var ordered := Ordered(queues);
      ghost var lo := 0;
      ghost var linked := AllLinked(queues);
      ghost var items := Contents() + Items(h0);
      ghost var count := Nodes() + Count(h0);
      while true
        invariant |queues| <= old(|queues|)
        invariant Carrying(queues, lo, h, items, count, linked)
        invariant ordered ==> Ordered(queues)
        decreases |queues|
      {
        var p := FirstAtLeast(queues, Rank(h));
        if p == |queues| || Rank(queues[p].root) != Rank(h) {
          Place(h, p, lo, items, count, linked, ordered);
          return;
        }
        CarryingStep(queues, lo, h, items, count, linked, p);
        if ordered {
          EraseOrdered(queues, p);
        }
        h := HeadMeld(queues[p].root, h);
        queues := queues[..p] + queues[p + 1..];
        lo := p;
      }
    }

    /** The end of `Meld`: the carried root goes in at `p`, before the first
        head of higher rank, and the suffix minima up to it are recomputed. */
    method Place(h: Node, p: nat, ghost lo: nat, ghost items: multiset<int>, ghost count: nat,
                 ghost linked: bool, ghost ordered: bool)
      modifies this
      requires Carrying(queues, lo, h, items, count, linked)
      requires p <= |queues| && RanksBelow(queues, p, Rank(h))
      requires p < |queues| ==> Rank(h) < Rank(queues[p].root)
      requires ordered ==> Ordered(queues)
      ensures Valid() && |queues| == old(|queues|) + 1
      ensures Contents() == items && Nodes() == count
      ensures linked ==> AllLinked(queues)
      ensures ordered ==> Ordered(queues)
    {
      CarryingPlace(queues, lo, h, items, count, linked, p);
      if ordered {
        PlaceOrdered(queues, p, Head(h, 0));
      }
      queues := queues[..p] + [Head(h, 0)] + queues[p..];
      ghost var placed := queues;
      FixMinList(p);
      HeadsSameRoots(queues, placed);
      if linked {
        FixedLinked(placed, queues, p);
      }
    }

    /** `Insert(value)`: a new single-node head melded into the list. */
    method Insert(value: int)
      modifies this
      requires Valid()
      ensures Valid()
      ensures Contents() == old(Contents()) + multiset{value}
      ensures 1 <= |queues| <= old(|queues|) + 1
      ensures old(AllLinked(queues)) ==> AllLinked(queues)
      ensures old(Ordered(queues)) ==> Ordered(queues)
    {
      var n := Node([value], []);
      assert Within(n, n.childs);
      Meld(n);
    }

    /** `m_queues.erase` at `c`: the heads after it keep their suffix minima. */
    method Erase(c: nat)
      modifies this
      requires Valid() && c < |queues|
      ensures queues == old(queues[..c] + queues[c + 1..])
      ensures InRangeFrom(queues, c)
      ensures Contents() + Items(old(queues[c].root)) == old(Contents())
      ensures Nodes() + Count(old(queues[c].root)) == old(Nodes())
    {
      HeadsErase(queues, c);
      EraseKeepsLater(queues, c, false);
      queues := queues[..c] + queues[c + 1..];
    }

    /** `Node::ReMeld` bound to the heap's `Meld`: each child of `n`, front
        to back, becomes a new head melded into the list. */
    method ReMeld(n: Node)
      modifies this
      requires Valid()
      ensures Valid()
      ensures Within(n, n.childs)
      ensures Contents() == old(Contents()) + Forest(n, n.childs)
      ensures Nodes() == old(Nodes()) + ForestCount(n, n.childs)
      ensures n.childs != [] ==> queues != []
    {
      assert Within(n, n.childs);
      var k := 0;
      while k < |n.childs|
        invariant k <= |n.childs| && Valid()
        invariant Contents() == old(Contents()) + Forest(n, n.childs[..k])
        invariant Nodes() == old(Nodes()) + ForestCount(n, n.childs[..k])
        invariant k > 0 ==> queues != []
      {
        ForestSnoc(n, k);
        Meld(n.childs[k].child);
        k := k + 1;
      }
      assert n.childs[..k] == n.childs;
    }

    /** The remeld branch of `DeleteMin`: the head at `c` (whose root has no
        values) is unlinked, the suffix minima before it are recomputed, and
        the children of its root are melded in as new heads. */
    method Remeld(c: nat)
      modifies this
      requires Valid() && c < |queues| && queues[c].root.values == [] && NeedsRemeld(queues[c].root)
      ensures Valid() && queues != []
      ensures Contents() == old(Contents())
      ensures Nodes() < old(Nodes())
    {
      var n := queues[c].root;
      Erase(c);
      if c > 0 {
        ghost var erased := queues;
        FixMinList(c - 1);
        HeadsSameRoots(queues, erased);
      }
      ReMeld(n);
      RootSums(n);
    }

    /** `Sift` on the root of the head at `c`, in place. */
    method SiftRoot(c: nat) returns (s: Node)
      modifies this
      requires Valid() && c < |queues| && queues[c].root.values == []
      ensures Valid() && |queues| == old(|queues|) && queues[c].root == s
      ensures Contents() == old(Contents())
      ensures Nodes() <= old(Nodes()) && (!Unlink(s) ==> Nodes() < old(Nodes()))
    {
      s := Sift(queues[c].root, r);
      HeadsReplace(queues, c, Head(s, queues[c].off));
      Cancel(HeadsItems(queues[c := Head(s, queues[c].off)]), HeadsItems(queues), Items(s));
      queues := queues[c := Head(s, queues[c].off)];
    }

    /** The sift branch of `DeleteMin`: the root of the head at `c` is
        sifted; the head is unlinked when its root is left with nothing at all
        (neither values nor children), and the suffix minima are recomputed
        from the head at `c`, or from the one before it once unlinked. */
    method SiftCandidate(c: nat)
      modifies this
      requires Valid() && c < |queues| && queues[c].root.values == [] && Contents() != multiset{}
      ensures Valid() && queues != []
      ensures Contents() == old(Contents())
      ensures Nodes() < old(Nodes())
    {
      var s := SiftRoot(c);
      var e := c;
      if Unlink(s) {
        UnlinkKeepsItems(s);
        Erase(c);
        if queues == [] {
          assert false;
        }
        if c > 0 {
          e := c - 1;
        }
      }
      ghost var unfixed := queues;
      FixMinList(e);
      HeadsSameRoots(queues, unfixed);
    }

    /** `DeleteMin`: throws `out_of_range` on an empty list of heads;
        otherwise, while the head the front points at has a root without
        values, that head is remelded or sifted, and then the front value of
        its root is removed and returned. */
    method DeleteMin() returns (result: Result<int>)
      modifies this
      requires Valid()
      requires queues == [] || Contents() != multiset{}
      ensures Valid()
      ensures old(queues) == [] ==> result == Failure(OutOfRange("No available queues")) && queues == []
      ensures old(queues) != [] ==> result.Success? && result.value in old(Contents())
      ensures result.Success? ==> Contents() == old(Contents()) - multiset{result.value}
    {
      if queues == [] {
        return Failure(OutOfRange("No available queues"));
      }
      var c := queues[0].off;
      while queues[c].root.values == []
        invariant Valid() && queues != [] && c == queues[0].off
        invariant Contents() == old(Contents()) && Contents() != multiset{}
        decreases Nodes()
      {
        if NeedsRemeld(queues[c].root) {
          Remeld(c);
        } else {
          SiftCandidate(c);
        }
        c := queues[0].off;
      }
      var root := queues[c].root;
      var min := root.values[0];
      var rest := PopFront(root);
      HeadsReplace(queues, c, Head(rest, queues[c].off));
      queues := queues[c := Head(rest, queues[c].off)];
      TakeOne(Contents(), Items(rest), old(Contents()), min);
      return Success(min);
    }
  }
}
