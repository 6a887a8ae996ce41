/**
 * The C soft heap (CSoftHeap/CSoftHeap.cpp), after the code in Chazelle's
 * soft-heap paper.  The list of heads between the two sentinels is a sequence
 * field of the heap object; each head's queue is a tree value whose nodes carry
 * a ckey, a rank, `next` and `child` subtrees and an item list.  A node's
 * item list that the C code copies up into its parent (and later clears
 * through `sift`) is moved in the model: the node left behind holds no items.
 */
module CSoftHeap {

  /** The tail sentinel's rank and the ckey of an exhausted node. */
  const INFTY: int := 100000

  datatype Tree =
    | Nil
    | Node(ckey: int, rank: nat, next: Tree, child: Tree, il: seq<int>)

  /** A node has both subtrees or neither. */
  predicate Shape(t: Tree) {
    t.Node? ==> (t.next.Nil? <==> t.child.Nil?) && Shape(t.next) && Shape(t.child)
  }

  function Size(t: Tree): nat {
    if t.Nil? then 0 else 1 + Size(t.next) + Size(t.child)
  }

  /** Every item held anywhere in the tree. */
  function Items(t: Tree): multiset<int> {
    if t.Nil? then multiset{} else multiset(t.il) + Items(t.next) + Items(t.child)
  }

  predicate EmptyLeaf(t: Tree) {
    t.Node? && t.next.Nil? && t.child.Nil? && t.il == []
  }

  /** The node invariant, except for the two clauses `sift` only restores in
      its clean-up: a node whose ckey is INFTY is an empty leaf, and a child is
      never exhausted.  Keys never exceed INFTY; the `next` subtree's item list
      has moved up into its parent; ckeys grow downwards and `next` is the
      cheaper subtree; ranks drop; and a node of rank at most r holds no item
      or exactly its ckey (lists are only concatenated above rank r). */
  ghost predicate Inv(t: Tree, r: int)
    decreases t, 1
  {
    t.Node? ==>
      && t.ckey <= INFTY
      && (t.ckey == INFTY ==> t.il == [])
      && (t.rank <= r ==> t.il == [] || t.il == [t.ckey])
      && (t.next.Nil? <==> t.child.Nil?)
      && (t.next.Node? ==>
            && t.next.rank < t.rank && t.child.rank < t.rank
            && t.next.il == []
            && t.ckey <= t.next.ckey <= t.child.ckey
            && TreeOk(t.next, r) && TreeOk(t.child, r))
  }

  ghost predicate TreeOk(t: Tree, r: int)
    decreases t, 2
  {
    && Inv(t, r)
    && (t.Node? && t.ckey == INFTY ==> EmptyLeaf(t))
    && (t.Node? && t.child.Node? ==> t.child.ckey < INFTY)
  }

  // ---------------------------------------------------------------------------
  // sift
  // ---------------------------------------------------------------------------

  /** The cheaper of the sifted `next` and the child becomes `next`, and its
      item list and ckey move up into the node. */
  function Pull(v: Tree, n1: Tree): (v1: Tree)
    requires v.Node? && v.child.Node? && n1.Node?
    ensures v1.Node? && v1.rank == v.rank && v1.next.Node? && v1.child.Node?
    ensures Size(v1.next) + Size(v1.child) == Size(n1) + Size(v.child)
    ensures Shape(n1) && Shape(v.child) ==> Shape(v1)
  {
    var (a, b) := if n1.ckey > v.child.ckey then (v.child, n1) else (n1, v.child);
    Raise(a, b, v.rank)
  }

  /** The second sift above rank r: with n2 the sifted `next`, the cheaper of n2
      and the child becomes `next`, and a non-empty list it carries is put in
      front of the node's own list, taking its ckey along. */
  function Combine(v1: Tree, n2: Tree): (v2: Tree)
    requires v1.Node? && v1.child.Node? && n2.Node?
    ensures v2.Node? && v2.rank == v1.rank && v2.next.Node? && v2.child.Node?
    ensures Size(v2.next) + Size(v2.child) == Size(n2) + Size(v1.child)
    ensures Shape(n2) && Shape(v1.child) ==> Shape(v2)
  {
    var (x, y) := if n2.ckey > v1.child.ckey then (v1.child, n2) else (n2, v1.child);
    Absorb(v1, x, y)
  }

  /** The node over x and y after the second sift; x's non-empty list goes in
      front of the node's own. */
  function Absorb(v1: Tree, x: Tree, y: Tree): (v2: Tree)
    requires v1.Node? && x.Node?
  {
    if x.ckey != INFTY && x.il != [] then Node(x.ckey, v1.rank, x.(il := []), y, x.il + v1.il)
    else Node(v1.ckey, v1.rank, x, y, v1.il)
  }

  /** An exhausted child is dropped: with an exhausted `next` the node becomes
      a leaf, otherwise `next` is replaced by its own two subtrees. */
  function Cleanup(v2: Tree): (v3: Tree)
    requires v2.Node? && v2.next.Node? && v2.child.Node?
    ensures v3.Node? && v3.rank == v2.rank && v3.ckey == v2.ckey && v3.il == v2.il
    ensures Size(v3) <= Size(v2)
    ensures Shape(v2) ==> Shape(v3)
  {
    if v2.child.ckey == INFTY then
      if v2.next.ckey == INFTY then v2.(next := Nil, child := Nil)
      else
        var n := v2.next;
        assert Shape(v2) ==> Shape(n);
        Node(v2.ckey, v2.rank, n.next, n.child, v2.il)
    else v2
  }

  /** Whether the node of rank `rank` sifts a second time. */
  predicate SecondSift(rank: nat, childRank: nat, r: int) {
    rank > r && (rank % 2 == 1 || childRank < rank - 1)
  }

  /** `sift` refills an emptied node from below; a leaf becomes exhausted. */
  function Sift(v: Tree, r: int): (w: Tree)
    requires v.Node? && Shape(v)
    ensures w.Node? && w.rank == v.rank && Shape(w) && Size(w) <= Size(v)
    decreases Size(v)
  {
    if v.next.Nil? then v.(il := [], ckey := INFTY)
    else
      var v1 := Pull(v, Sift(v.next, r));
      var v2 := if SecondSift(v.rank, v1.child.rank, r) then Combine(v1, Sift(v1.next, r)) else v1;
      Cleanup(v2)
  }

  // ---------------------------------------------------------------------------
  // What sift preserves
  // ---------------------------------------------------------------------------

  /** A node is stale when its list is used up while its ckey is still finite. */
  function Stale1(t: Tree): nat {
    if t.Node? && t.il == [] && t.ckey < INFTY then 1 else 0
  }

  /** Stale nodes outside `next` positions (a `next` node's list always lives in
      its parent), counting the root. */
  function StaleCount(t: Tree): nat
    decreases t, 1
  {
    if t.Nil? then 0 else Stale1(t) + StaleBelow(t)
  }

  /** The same count without the root. */
  function StaleBelow(t: Tree): nat
    decreases t, 0
  {
    if t.Nil? then 0 else StaleBelow(t.next) + StaleCount(t.child)
  }

  lemma ClearOk(t: Tree, r: int)
    requires TreeOk(t, r) && t.Node?
    ensures TreeOk(t.(il := []), r)
  {
  }

  /** The node of rank `rank` over a and b that takes a's list and ckey. */
  function Raise(a: Tree, b: Tree, rank: nat): (v1: Tree)
    requires a.Node?
  {
    Node(a.ckey, rank, a.(il := []), b, a.il)
  }

  lemma RaiseOk(a: Tree, b: Tree, rank: nat, r: int)
    requires TreeOk(a, r) && TreeOk(b, r) && a.Node? && b.Node?
    requires a.rank < rank && b.rank < rank && a.ckey <= b.ckey
    ensures Inv(Raise(a, b, rank), r)
  {
    ClearOk(a, r);
  }

  lemma RaiseCounts(a: Tree, b: Tree, rank: nat)
    requires a.Node?
    ensures Items(Raise(a, b, rank)) == Items(a) + Items(b)
    ensures StaleCount(Raise(a, b, rank)) == StaleCount(a) + StaleCount(b)
  {
    assert Items(a.(il := [])) == Items(a.next) + Items(a.child);
    assert StaleBelow(a.(il := [])) == StaleBelow(a);
  }

  lemma PullOk(v: Tree, n1: Tree, r: int)
    requires TreeOk(v, r) && v.Node? && v.next.Node? && v.child.Node?
    requires TreeOk(n1, r) && n1.Node? && n1.rank == v.next.rank && n1.ckey >= v.next.ckey
    ensures var v1 := Pull(v, n1);
      && Inv(v1, r) && v1.ckey >= v.ckey
      && Items(v1) == Items(n1) + Items(v.child)
      && StaleCount(v1) == StaleCount(n1) + StaleCount(v.child)
  {
    var c := v.child;
    assert TreeOk(c, r) && c.rank < v.rank && c.ckey < INFTY && v.ckey <= v.next.ckey <= c.ckey;
    if n1.ckey > c.ckey {
      RaiseOk(c, n1, v.rank, r);
      RaiseCounts(c, n1, v.rank);
    } else {
      RaiseOk(n1, c, v.rank, r);
      RaiseCounts(n1, c, v.rank);
    }
  }

  /** The two outcomes of the second sift. */
  lemma CombineOk(v1: Tree, n2: Tree, r: int)
    requires Inv(v1, r) && v1.Node? && v1.next.Node? && v1.child.Node? && v1.rank > r
    requires TreeOk(n2, r) && n2.Node? && n2.rank == v1.next.rank && n2.ckey >= v1.next.ckey
    ensures var v2 := Combine(v1, n2);
      && Inv(v2, r) && v2.ckey >= v1.ckey
      && Items(v2) == multiset(v1.il) + Items(n2) + Items(v1.child)
      && StaleCount(v2) <= Stale1(v1) + StaleCount(n2) + StaleCount(v1.child)
  {
    var c := v1.child;
    assert TreeOk(c, r) && c.rank < v1.rank && v1.ckey <= v1.next.ckey <= c.ckey;
    if n2.ckey > c.ckey {
      AbsorbOk(v1, c, n2, r);
      AbsorbCounts(v1, c, n2);
    } else {
      AbsorbOk(v1, n2, c, r);
      AbsorbCounts(v1, n2, c);
    }
  }

  lemma AbsorbOk(v1: Tree, x: Tree, y: Tree, r: int)
    requires Inv(v1, r) && v1.Node? && v1.rank > r
    requires TreeOk(x, r) && TreeOk(y, r) && x.Node? && y.Node?
    requires x.rank < v1.rank && y.rank < v1.rank && v1.ckey <= x.ckey <= y.ckey
    ensures Inv(Absorb(v1, x, y), r) && Absorb(v1, x, y).ckey >= v1.ckey
  {
    if x.ckey != INFTY && x.il != [] {
      ClearOk(x, r);
    } else {
      assert x.il == [];
    }
  }

  lemma AbsorbCounts(v1: Tree, x: Tree, y: Tree)
    requires v1.Node? && x.Node? && (x.ckey == INFTY ==> x.il == [])
    ensures Items(Absorb(v1, x, y)) == multiset(v1.il) + Items(x) + Items(y)
    ensures StaleCount(Absorb(v1, x, y)) <= Stale1(v1) + StaleCount(x) + StaleCount(y)
  {
    AbsorbItems(v1, x, y);
    AbsorbStale(v1, x, y);
  }

  lemma AbsorbItems(v1: Tree, x: Tree, y: Tree)
    requires v1.Node? && x.Node? && (x.ckey == INFTY ==> x.il == [])
    ensures Items(Absorb(v1, x, y)) == multiset(v1.il) + Items(x) + Items(y)
  {
    var v2 := Absorb(v1, x, y);
    if x.ckey != INFTY && x.il != [] {
      var x0 := x.(il := []);
      assert Items(x0) == Items(x.next) + Items(x.child);
      assert Items(v2) == multiset(x.il + v1.il) + Items(x0) + Items(y);
    } else {
      assert x.il == [];
      assert Items(v2) == multiset(v1.il) + Items(x) + Items(y);
    }
  }

  lemma AbsorbStale(v1: Tree, x: Tree, y: Tree)
    requires v1.Node? && x.Node? && (x.ckey == INFTY ==> x.il == [])
    ensures StaleCount(Absorb(v1, x, y)) <= Stale1(v1) + StaleCount(x) + StaleCount(y)
  {
    var v2 := Absorb(v1, x, y);
    if x.ckey != INFTY && x.il != [] {
      var x0 := x.(il := []);
      assert StaleBelow(x0) == StaleBelow(x);
      assert StaleCount(v2) == StaleBelow(x0) + StaleCount(y);
    } else {
      assert StaleCount(v2) == Stale1(v1) + StaleBelow(x) + StaleCount(y);
    }
  }

  lemma CleanupOk(v2: Tree, r: int)
    requires Inv(v2, r) && v2.Node? && v2.next.Node? && v2.child.Node?
    ensures TreeOk(Cleanup(v2), r)
  {
    var n, c := v2.next, v2.child;
    assert TreeOk(n, r) && TreeOk(c, r);
    assert Inv(n, r) && Inv(c, r);
    if c.ckey != INFTY {
      assert v2.ckey <= n.ckey <= c.ckey < INFTY;
    } else if n.ckey == INFTY {
      assert v2.ckey == INFTY ==> v2.il == [];
    } else {
      assert n.next.Node? ==> TreeOk(n.next, r) && TreeOk(n.child, r);
      assert v2.ckey <= n.ckey < INFTY;
    }
  }

  lemma CleanupCounts(v2: Tree, r: int)
    requires Inv(v2, r) && v2.Node? && v2.next.Node? && v2.child.Node?
    ensures Items(Cleanup(v2)) == Items(v2)
    ensures StaleCount(Cleanup(v2)) <= StaleCount(v2)
  {
    var n, c := v2.next, v2.child;
    assert TreeOk(n, r) && TreeOk(c, r);
    if c.ckey == INFTY {
      assert EmptyLeaf(c);
      assert Items(c) == multiset{};
      assert StaleBelow(c) == 0;
      if n.ckey == INFTY {
        assert EmptyLeaf(n);
        assert Items(n) == multiset{};
      } else {
        assert n.il == [];
        assert Items(n) == Items(n.next) + Items(n.child);
        assert StaleBelow(n) == StaleBelow(n.next) + StaleCount(n.child);
        assert StaleCount(Cleanup(v2)) == Stale1(v2) + StaleBelow(n.next) + StaleCount(n.child);
        assert StaleCount(v2) == Stale1(v2) + StaleBelow(n) + StaleCount(c);
      }
    }
  }

  /** Sifting an emptied node keeps the invariant and the items, never lowers
      its ckey, and leaves fewer stale nodes than there were below it. */
  lemma {:induction false} SiftOk(v: Tree, r: int)
    requires TreeOk(v, r) && v.Node? && v.il == []
    ensures Shape(v)
    ensures var w := Sift(v, r);
      && TreeOk(w, r) && w.ckey >= v.ckey
      && Items(w) == Items(v)
      && StaleCount(w) <= StaleBelow(v)
    decreases Size(v)
  {
    TreeShape(v, r);
    if v.next.Node? {
      var n1 := Sift(v.next, r);
      SiftOk(v.next, r);
      PullOk(v, n1, r);
      var v1 := Pull(v, n1);
      assert Items(v) == Items(v.next) + Items(v.child);
      assert Items(v1) == Items(v);
      var v2 := v1;
      if SecondSift(v.rank, v1.child.rank, r) {
        var n2 := Sift(v1.next, r);
        SiftOk(v1.next, r);
        CombineOk(v1, n2, r);
        v2 := Combine(v1, n2);
        assert Items(v1) == multiset(v1.il) + Items(v1.next) + Items(v1.child);
        assert Items(v2) == Items(v1);
      }
      CleanupOk(v2, r);
      CleanupCounts(v2, r);
      assert Sift(v, r) == Cleanup(v2);
    }
  }

  lemma {:induction false} TreeShape(t: Tree, r: int)
    requires TreeOk(t, r)
    ensures Shape(t)
  {
    if t.Node? && t.next.Node? {
      TreeShape(t.next, r);
      TreeShape(t.child, r);
    }
  }

  /** Every item of a tree whose ranks stay within r is at least its root's
      ckey: such nodes hold only their own ckey, and ckeys grow downwards. */
  lemma {:induction false} ExactItems(t: Tree, r: int)
    requires TreeOk(t, r) && t.Node? && t.rank <= r
    ensures forall x :: x in Items(t) ==> t.ckey <= x
  {
    if t.next.Node? {
      ExactItems(t.next, r);
      ExactItems(t.child, r);
    }
  }

  // ---------------------------------------------------------------------------
  // The head list
  // ---------------------------------------------------------------------------

  /** A head: its queue, the queue's rank, and where its suffix_min points,
      as a distance forward along the list. */
  datatype Head = Head(queue: Tree, rank: nat, off: nat)

  function Key(h: Head): int {
    if h.queue.Node? then h.queue.ckey else INFTY
  }

  function Keys(hs: seq<Head>): (ks: seq<int>)
    ensures |ks| == |hs| && forall i :: 0 <= i < |hs| ==> ks[i] == Key(hs[i])
  {
    seq(|hs|, i requires 0 <= i < |hs| => Key(hs[i]))
  }

  /** Where fix_minlist leaves suffix_min: the least key, the last one among
      equals (a head only takes over on a strictly smaller ckey). */
  function MinOf(ks: seq<int>): (m: nat)
    requires ks != []
    ensures m < |ks|
  {
    if |ks| == 1 then 0
    else
      var t := 1 + MinOf(ks[1..]);
      if ks[0] < ks[t] then 0 else t
  }

  lemma {:induction false} MinOfLeast(ks: seq<int>)
    requires ks != []
    ensures forall j :: 0 <= j < |ks| ==> ks[MinOf(ks)] <= ks[j]
  {
    if |ks| > 1 {
      MinOfLeast(ks[1..]);
      assert forall j :: 1 <= j < |ks| ==> ks[1..][j - 1] == ks[j];
    }
  }

  ghost predicate HeadOk(h: Head, r: int) {
    h.queue.Node? && h.queue.rank == h.rank && TreeOk(h.queue, r) && h.queue.ckey < INFTY
  }

  ghost predicate HeadsOk(hs: seq<Head>, r: int) {
    forall i :: 0 <= i < |hs| ==> HeadOk(hs[i], r)
  }

  /** Head ranks strictly increase from the header towards the tail. */
  predicate Ordered(hs: seq<Head>) {
    forall i, j :: 0 <= i < j < |hs| ==> hs[i].rank < hs[j].rank
  }

  /** Every suffix_min points at the least ckey among its head and the later ones. */
  predicate OffsetsOk(hs: seq<Head>) {
    forall i :: 0 <= i < |hs| ==> hs[i].off == MinOf(Keys(hs)[i..])
  }

  function Pow2(n: nat): (p: nat)
    ensures p >= 1
  {
    if n == 0 then 1 else 2 * Pow2(n - 1)
  }

  lemma {:induction false} Pow2Monotone(a: nat, b: nat)
    requires a <= b
    ensures Pow2(a) <= Pow2(b)
    decreases b
  {
    if a < b {
      Pow2Monotone(a, b - 1);
    }
  }

  /** The sum of 2^rank over the heads: a binary counter's value, which carries
      keep and re-melding a queue's children lowers. */
  function Weight(hs: seq<Head>): nat {
    if hs == [] then 0 else Pow2(hs[0].rank) + Weight(hs[1..])
  }

  function HeadsItems(hs: seq<Head>): multiset<int> {
    if hs == [] then multiset{} else Items(hs[0].queue) + HeadsItems(hs[1..])
  }

  function HeadsStale(hs: seq<Head>): nat {
    if hs == [] then 0 else StaleCount(hs[0].queue) + HeadsStale(hs[1..])
  }

  lemma {:induction false} WeightAppend(a: seq<Head>, b: seq<Head>)
    ensures Weight(a + b) == Weight(a) + Weight(b)
  {
    if a == [] {
      assert a + b == b;
    } else {
      assert (a + b)[0] == a[0];
      assert (a + b)[1..] == a[1..] + b;
      WeightAppend(a[1..], b);
    }
  }

  lemma {:induction false} ItemsAppend(a: seq<Head>, b: seq<Head>)
    ensures HeadsItems(a + b) == HeadsItems(a) + HeadsItems(b)
  {
    if a == [] {
      assert a + b == b;
    } else {
      assert (a + b)[0] == a[0];
      assert (a + b)[1..] == a[1..] + b;
      ItemsAppend(a[1..], b);
    }
  }

  lemma {:induction false} StaleAppend(a: seq<Head>, b: seq<Head>)
    ensures HeadsStale(a + b) == HeadsStale(a) + HeadsStale(b)
  {
    if a == [] {
      assert a + b == b;
    } else {
      assert (a + b)[0] == a[0];
      assert (a + b)[1..] == a[1..] + b;
      StaleAppend(a[1..], b);
    }
  }

  /** The sums over a list split around position i. */
  lemma Assoc(a: multiset<int>, b: multiset<int>, c: multiset<int>)
    ensures a + (b + c) == a + b + c
  {
  }

  lemma ItemsAt(hs: seq<Head>, i: nat)
    requires i < |hs|
    ensures HeadsItems(hs) == HeadsItems(hs[..i]) + Items(hs[i].queue) + HeadsItems(hs[i + 1..])
  {
    var a, b := hs[..i], hs[i + 1..];
    SplitAt(hs, i);
    ItemsAppend(a, [hs[i]] + b);
    ItemsCons(hs[i], b);
    Assoc(HeadsItems(a), Items(hs[i].queue), HeadsItems(b));
  }

  lemma SplitAt(hs: seq<Head>, i: nat)
    requires i < |hs|
    ensures hs == hs[..i] + ([hs[i]] + hs[i + 1..])
  {
  }

  lemma ItemsCons(h: Head, t: seq<Head>)
    ensures HeadsItems([h] + t) == Items(h.queue) + HeadsItems(t)
  {
    assert ([h] + t)[1..] == t;
  }

  lemma WeightAt(hs: seq<Head>, i: nat)
    requires i < |hs|
    ensures Weight(hs) == Weight(hs[..i]) + Pow2(hs[i].rank) + Weight(hs[i + 1..])
  {
    var tail := [hs[i]] + hs[i + 1..];
    assert hs == hs[..i] + tail;
    WeightAppend(hs[..i], tail);
    assert tail[0] == hs[i] && tail[1..] == hs[i + 1..];
  }

  lemma StaleAt(hs: seq<Head>, i: nat)
    requires i < |hs|
    ensures HeadsStale(hs) == HeadsStale(hs[..i]) + StaleCount(hs[i].queue) + HeadsStale(hs[i + 1..])
  {
    var tail := [hs[i]] + hs[i + 1..];
    assert hs == hs[..i] + tail;
    StaleAppend(hs[..i], tail);
    assert tail[0] == hs[i] && tail[1..] == hs[i + 1..];
  }

  lemma {:induction false} WeightCovers(hs: seq<Head>, i: nat)
    requires i < |hs|
    ensures Pow2(hs[i].rank) <= Weight(hs)
  {
    if i > 0 {
      WeightCovers(hs[1..], i - 1);
    }
  }

  lemma {:induction false} ItemsNonEmpty(hs: seq<Head>)
    requires HeadsItems(hs) != multiset{}
    ensures hs != []
  {
  }

  /** With every head of rank at most r and ckey at least m, no item is below m. */
  lemma {:induction false} HeadsAbove(hs: seq<Head>, m: int, r: int)
    requires HeadsOk(hs, r)
    requires forall j :: 0 <= j < |hs| ==> hs[j].rank <= r && m <= Key(hs[j])
    ensures forall x :: x in HeadsItems(hs) ==> m <= x
  {
    if hs != [] {
      ExactItems(hs[0].queue, r);
      HeadsAbove(hs[1..], m, r);
    }
  }

  /** Two head lists that differ at most in their suffix_min offsets. */
  predicate SameShape(a: seq<Head>, b: seq<Head>) {
    |a| == |b| && forall j :: 0 <= j < |a| ==> a[j].queue == b[j].queue && a[j].rank == b[j].rank
  }

  lemma {:induction false} SameShapeSums(a: seq<Head>, b: seq<Head>)
    requires SameShape(a, b)
    ensures Weight(a) == Weight(b) && HeadsItems(a) == HeadsItems(b) && HeadsStale(a) == HeadsStale(b)
  {
    if a != [] {
      SameShapeSums(a[1..], b[1..]);
    }
  }

  lemma SameShapeValid(a: seq<Head>, b: seq<Head>, r: int)
    requires SameShape(a, b)
    ensures Keys(a) == Keys(b)
    ensures HeadsOk(a, r) == HeadsOk(b, r) && Ordered(a) == Ordered(b)
  {
    assert forall j :: 0 <= j < |a| ==> Keys(a)[j] == Keys(b)[j];
  }

  lemma MinOfStep(ks: seq<int>, i: nat)
    requires i + 1 < |ks|
    ensures MinOf(ks[i..]) ==
      (if ks[i] < ks[i + 1 + MinOf(ks[i + 1..])] then 0 else 1 + MinOf(ks[i + 1..]))
  {
    assert ks[i..][1..] == ks[i + 1..];
  }

  /** One step of fix_minlist: head i takes over the minimum on a strictly
      smaller ckey, and its suffix_min then points at the minimum. */
  lemma FixStep(base: seq<Head>, hs: seq<Head>, hs2: seq<Head>, i: nat, tmpmin: nat, m: nat)
    requires SameShape(hs, base) && i <= tmpmin < |hs|
    requires forall j :: i < j < |hs| ==> hs[j].off == MinOf(Keys(hs)[j..])
    requires if i + 1 == |hs| then tmpmin == i else tmpmin == i + 1 + MinOf(Keys(hs)[i + 1..])
    requires m == if Key(hs[i]) < Key(hs[tmpmin]) then i else tmpmin
    requires hs2 == hs[i := hs[i].(off := m - i)]
    ensures SameShape(hs2, base)
    ensures m == i + MinOf(Keys(hs2)[i..])
    ensures forall j :: i - 1 < j < |hs2| ==> hs2[j].off == MinOf(Keys(hs2)[j..])
  {
    var ks := Keys(hs);
    KeysIgnoreOff(hs, hs2);
    if i + 1 < |hs| {
      MinOfStep(ks, i);
    }
    forall j | i - 1 < j < |hs2| ensures hs2[j].off == MinOf(ks[j..]) {
      if j > i {
        assert hs2[j] == hs[j];
      }
    }
    forall j | 0 <= j < |hs2| ensures hs2[j].queue == base[j].queue && hs2[j].rank == base[j].rank {
      assert hs2[j].queue == hs[j].queue && hs2[j].rank == hs[j].rank;
    }
  }

  /** The keys of the heads do not depend on their suffix_min offsets. */
  lemma KeysIgnoreOff(hs: seq<Head>, hs2: seq<Head>)
    requires |hs2| == |hs| && forall j :: 0 <= j < |hs| ==> hs2[j].queue == hs[j].queue
    ensures Keys(hs2) == Keys(hs)
  {
    assert forall j :: 0 <= j < |hs| ==> Keys(hs2)[j] == Keys(hs)[j];
  }

  // ---------------------------------------------------------------------------
  // Unlinking a head and replacing a head's queue
  // ---------------------------------------------------------------------------

  lemma RemoveOk(hs: seq<Head>, h: nat, r: int)
    requires HeadsOk(hs, r) && Ordered(hs) && h < |hs|
    ensures HeadsOk(hs[..h] + hs[h + 1..], r) && Ordered(hs[..h] + hs[h + 1..])
  {
    var hs' := hs[..h] + hs[h + 1..];
    assert forall j :: 0 <= j < |hs'| ==> hs'[j] == hs[if j < h then j else j + 1];
  }

  lemma RemoveOffsets(hs: seq<Head>, h: nat)
    requires OffsetsOk(hs) && h < |hs|
    ensures var hs' := hs[..h] + hs[h + 1..];
      forall j :: h - 1 < j < |hs'| ==> hs'[j].off == MinOf(Keys(hs')[j..])
  {
    var hs' := hs[..h] + hs[h + 1..];
    forall j | h - 1 < j < |hs'| ensures hs'[j].off == MinOf(Keys(hs')[j..]) {
      assert hs'[j] == hs[j + 1];
      assert Keys(hs')[j..] == Keys(hs)[j + 1..];
    }
  }

  lemma RemoveItems(hs: seq<Head>, h: nat)
    requires h < |hs|
    ensures HeadsItems(hs[..h] + hs[h + 1..]) + Items(hs[h].queue) == HeadsItems(hs)
  {
    ItemsAt(hs, h);
    ItemsAppend(hs[..h], hs[h + 1..]);
  }

  lemma RemoveWeight(hs: seq<Head>, h: nat)
    requires h < |hs|
    ensures Weight(hs[..h] + hs[h + 1..]) + Pow2(hs[h].rank) == Weight(hs)
  {
    WeightAt(hs, h);
    WeightAppend(hs[..h], hs[h + 1..]);
  }

  lemma ReplaceOk(hs: seq<Head>, h: nat, w: Tree, r: int)
    requires HeadsOk(hs, r) && Ordered(hs) && h < |hs|
    requires HeadOk(hs[h].(queue := w), r)
    ensures HeadsOk(hs[h := hs[h].(queue := w)], r) && Ordered(hs[h := hs[h].(queue := w)])
  {
  }

  lemma ReplaceOffsets(hs: seq<Head>, h: nat, w: Tree)
    requires OffsetsOk(hs) && h < |hs|
    ensures var hs' := hs[h := hs[h].(queue := w)];
      forall j :: h < j < |hs'| ==> hs'[j].off == MinOf(Keys(hs')[j..])
  {
    var hs' := hs[h := hs[h].(queue := w)];
    forall j | h < j < |hs'| ensures hs'[j].off == MinOf(Keys(hs')[j..]) {
      UpdateKeysFrom(hs, h, hs[h].(queue := w), j);
    }
  }

  /** Updating the head at h leaves the keys after h alone. */
  lemma UpdateKeysFrom(hs: seq<Head>, h: nat, v: Head, j: nat)
    requires h < j <= |hs|
    ensures Keys(hs[h := v])[j..] == Keys(hs)[j..]
  {
    var a, b := Keys(hs[h := v])[j..], Keys(hs)[j..];
    assert |a| == |b|;
    forall k | 0 <= k < |a| ensures a[k] == b[k] {
      assert hs[h := v][j + k] == hs[j + k];
    }
  }

  /** A queue with the same ckey leaves every suffix_min right. */
  lemma ReplaceSameKey(hs: seq<Head>, h: nat, w: Tree)
    requires OffsetsOk(hs) && h < |hs| && w.Node? && hs[h].queue.Node? && w.ckey == hs[h].queue.ckey
    ensures OffsetsOk(hs[h := hs[h].(queue := w)])
  {
    assert Keys(hs[h := hs[h].(queue := w)]) == Keys(hs);
  }

  lemma ReplaceItems(hs: seq<Head>, h: nat, w: Tree)
    requires h < |hs|
    ensures HeadsItems(hs[h := hs[h].(queue := w)]) + Items(hs[h].queue) == HeadsItems(hs) + Items(w)
  {
    var hs' := hs[h := hs[h].(queue := w)];
    ItemsAt(hs, h);
    ItemsAt(hs', h);
    assert hs'[..h] == hs[..h] && hs'[h + 1..] == hs[h + 1..];
  }

  lemma ReplaceWeight(hs: seq<Head>, h: nat, w: Tree)
    requires h < |hs|
    ensures Weight(hs[h := hs[h].(queue := w)]) == Weight(hs)
  {
    var hs' := hs[h := hs[h].(queue := w)];
    WeightAt(hs, h);
    WeightAt(hs', h);
    assert hs'[..h] == hs[..h] && hs'[h + 1..] == hs[h + 1..];
  }

  lemma ReplaceStale(hs: seq<Head>, h: nat, w: Tree)
    requires h < |hs|
    ensures HeadsStale(hs[h := hs[h].(queue := w)]) + StaleCount(hs[h].queue) == HeadsStale(hs) + StaleCount(w)
  {
    var hs' := hs[h := hs[h].(queue := w)];
    StaleAt(hs, h);
    StaleAt(hs', h);
    assert hs'[..h] == hs[..h] && hs'[h + 1..] == hs[h + 1..];
  }

  lemma Cancel(a: multiset<int>, b: multiset<int>, q: multiset<int>, w: multiset<int>, m: multiset<int>)
    requires a + q == b + w && w + m == q
    ensures a + m == b
  {
    forall x ensures (a + m)[x] == b[x] {
      assert (a + q)[x] == (b + w)[x];
      assert (w + m)[x] == q[x];
    }
  }

  lemma TakeOne(a: multiset<int>, b: multiset<int>, m: int)
    requires a + multiset{m} == b
    ensures m in b && a == b - multiset{m}
  {
  }

  /** Taking the first item off a root's list keeps it a valid root. */
  lemma PopOk(q: Tree, r: int)
    requires q.Node? && TreeOk(q, r) && q.ckey < INFTY && q.il != []
    ensures TreeOk(q.(il := q.il[1..]), r)
  {
    assert Inv(q, r);
  }

  lemma PopItems(q: Tree)
    requires q.Node? && q.il != []
    ensures Items(q.(il := q.il[1..])) + multiset{q.il[0]} == Items(q)
  {
    assert q.il == [q.il[0]] + q.il[1..];
  }

  /** Taking the first item off a head's list. */
  lemma PopFront(hs: seq<Head>, h: nat, r: int)
    requires HeadsOk(hs, r) && Ordered(hs) && OffsetsOk(hs) && h < |hs| && hs[h].queue.il != []
    ensures var q := hs[h].queue;
      var hs' := hs[h := hs[h].(queue := q.(il := q.il[1..]))];
      && HeadsOk(hs', r) && Ordered(hs') && OffsetsOk(hs')
      && HeadsItems(hs') + multiset{q.il[0]} == HeadsItems(hs)
      && Weight(hs') == Weight(hs)
  {
    var q := hs[h].queue;
    var w := q.(il := q.il[1..]);
    assert HeadOk(hs[h], r);
    PopOk(q, r);
    ReplaceOk(hs, h, w, r);
    ReplaceSameKey(hs, h, w);
    ReplaceItems(hs, h, w);
    ReplaceWeight(hs, h, w);
    PopItems(q);
    Cancel(HeadsItems(hs[h := hs[h].(queue := w)]), HeadsItems(hs), Items(q), Items(w), multiset{q.il[0]});
  }

  /** Walking the `next` chain of a root whose item list is empty: every item
      is in a child hanging off the chain. */
  lemma ChainStep(t: Tree, r: int)
    requires TreeOk(t, r) && t.Node? && t.il == [] && t.next.Node?
    ensures t.child.Node? && TreeOk(t.child, r) && t.child.ckey < INFTY
    ensures TreeOk(t.next, r) && t.next.il == []
    ensures Items(t) == Items(t.next) + Items(t.child)
    ensures ChildWeight(t) == Pow2(t.child.rank) + ChildWeight(t.next)
  {
  }

  lemma ChainEnd(t: Tree, r: int)
    requires TreeOk(t, r) && t.Node? && t.il == [] && t.next.Nil?
    ensures Items(t) == multiset{} && ChildWeight(t) == 0
  {
  }

  lemma Regroup2(c1: multiset<int>, c: multiset<int>, ch: multiset<int>, nx: multiset<int>,
                 t: multiset<int>, c0: multiset<int>)
    requires c1 == c + ch && t == nx + ch && c + t == c0
    ensures c1 + nx == c0
  {
  }

  /** With every head of rank at most r, the head suffix_min picks holds the
      least item of the whole heap at the front of its list. */
  lemma Exactness(hs: seq<Head>, r: int)
    requires HeadsOk(hs, r) && OffsetsOk(hs) && hs != []
    requires r >= 0 && Weight(hs) < Pow2(r + 1)
    requires hs[hs[0].off].queue.il != []
    ensures forall x :: x in HeadsItems(hs) ==> hs[hs[0].off].queue.il[0] <= x
  {
    var h := hs[0].off;
    RanksWithin(hs, r);
    assert HeadOk(hs[h], r) && hs[h].rank <= r;
    assert TreeOk(hs[h].queue, r) && Inv(hs[h].queue, r);
    assert hs[h].queue.rank <= r && hs[h].queue.il != [];
    assert hs[h].queue.il == [Key(hs[h])];
    HeadsAbove(hs, Key(hs[h]), r);
  }

  /** With fewer than 2^(r+1) nodes no head has rank above r, and the head
      suffix_min points at from the first head has the least key. */
  lemma RanksWithin(hs: seq<Head>, r: int)
    requires HeadsOk(hs, r) && OffsetsOk(hs) && hs != []
    requires r >= 0 && Weight(hs) < Pow2(r + 1)
    ensures forall j :: 0 <= j < |hs| ==> hs[j].rank <= r && Key(hs[hs[0].off]) <= Key(hs[j])
  {
    assert Keys(hs)[0..] == Keys(hs);
    MinOfLeast(Keys(hs));
    forall j | 0 <= j < |hs| ensures hs[j].rank <= r {
      WeightCovers(hs, j);
      if hs[j].rank > r {
        Pow2Monotone(r + 1, hs[j].rank);
      }
    }
  }

  /** Melding two queues of equal rank: the one with the smaller ckey goes on
      top (the queue already in the list on ties) and the new root takes its
      list and ckey. */
  function Link(q: Tree, existing: Tree): Tree
    requires q.Node? && existing.Node?
  {
    if existing.ckey > q.ckey then Raise(q, existing, q.rank + 1)
    else Raise(existing, q, existing.rank + 1)
  }

  lemma LinkOk(q: Tree, existing: Tree, r: int)
    requires TreeOk(q, r) && TreeOk(existing, r) && q.Node? && existing.Node?
    requires q.rank == existing.rank && q.ckey < INFTY && existing.ckey < INFTY
    ensures var l := Link(q, existing);
      && TreeOk(l, r) && l.Node? && l.ckey < INFTY && l.rank == q.rank + 1
      && Items(l) == Items(q) + Items(existing)
  {
    if existing.ckey > q.ckey {
      RaiseOk(q, existing, q.rank + 1, r);
      RaiseCounts(q, existing, q.rank + 1);
    } else {
      RaiseOk(existing, q, q.rank + 1, r);
      RaiseCounts(existing, q, q.rank + 1);
    }
  }

  /** One link of meld's carry loop, as a step of its own. */
  method LinkQueues(q: Tree, existing: Tree, ghost r: int) returns (l: Tree)
    requires TreeOk(q, r) && TreeOk(existing, r) && q.Node? && existing.Node?
    requires q.rank == existing.rank && q.ckey < INFTY && existing.ckey < INFTY
    ensures l == Link(q, existing)
    ensures TreeOk(l, r) && l.Node? && l.ckey < INFTY && l.rank == q.rank + 1
    ensures Items(l) == Items(q) + Items(existing)
  {
    LinkOk(q, existing, r);
    l := Link(q, existing);
  }

  /** The weight that re-melding the children along a root's `next` chain adds back. */
  function ChildWeight(t: Tree): nat {
    if t.Node? && t.next.Node? && t.child.Node? then Pow2(t.child.rank) + ChildWeight(t.next) else 0
  }

  lemma {:induction false} ChildWeightBelow(t: Tree, r: int)
    requires TreeOk(t, r) && t.Node?
    ensures ChildWeight(t) < Pow2(t.rank)
  {
    if t.next.Node? {
      ChildWeightBelow(t.next, r);
      Pow2Monotone(t.child.rank, t.rank - 1);
      Pow2Monotone(t.next.rank, t.rank - 1);
    }
  }

  /** Splicing the melded queue in place of the heads it absorbed keeps the
      ranks strictly increasing. */
  lemma SpliceOrdered(hs: seq<Head>, p: nat, t: nat, h: Head, q0rank: nat)
    requires Ordered(hs) && p <= t <= |hs|
    requires forall j :: 0 <= j < p ==> hs[j].rank < q0rank
    requires p < |hs| ==> q0rank <= hs[p].rank
    requires h.rank == q0rank + (t - p)
    requires t < |hs| ==> h.rank < hs[t].rank
    ensures Ordered(hs[..p] + [h] + hs[t..])
  {
    var hs' := hs[..p] + [h] + hs[t..];
    forall i, j | 0 <= i < j < |hs'| ensures hs'[i].rank < hs'[j].rank {
      if j < p {
        assert hs'[i] == hs[i] && hs'[j] == hs[j];
      } else if j == p {
        assert hs'[i] == hs[i] && hs'[j] == h;
      } else if i < p {
        assert hs'[i] == hs[i] && hs'[j] == hs[j - p - 1 + t];
        assert hs[t].rank <= hs[j - p - 1 + t].rank;
      } else if i == p {
        assert hs'[i] == h && hs'[j] == hs[j - p - 1 + t];
        assert hs[t].rank <= hs[j - p - 1 + t].rank;
      } else {
        assert hs'[i] == hs[i - p - 1 + t] && hs'[j] == hs[j - p - 1 + t];
      }
    }
  }

  lemma SpliceHeadsOk(hs: seq<Head>, p: nat, t: nat, h: Head, r: int)
    requires HeadsOk(hs, r) && p <= t <= |hs| && HeadOk(h, r)
    ensures HeadsOk(hs[..p] + [h] + hs[t..], r)
  {
    var hs' := hs[..p] + [h] + hs[t..];
    assert forall j :: p < j < |hs'| ==> hs'[j] == hs[j - p - 1 + t];
    assert forall j :: 0 <= j < p ==> hs'[j] == hs[j];
  }

  lemma SpliceOffsets(hs: seq<Head>, p: nat, t: nat, h: Head)
    requires OffsetsOk(hs) && p <= t <= |hs|
    ensures var hs' := hs[..p] + [h] + hs[t..];
      forall j :: p < j < |hs'| ==> hs'[j].off == MinOf(Keys(hs')[j..])
  {
    var hs' := hs[..p] + [h] + hs[t..];
    forall j | p < j < |hs'| ensures hs'[j].off == MinOf(Keys(hs')[j..]) {
      assert hs'[j] == hs[j - p - 1 + t];
      assert Keys(hs')[j..] == Keys(hs)[j - p - 1 + t..];
    }
  }

  lemma Cut(hs: seq<Head>, i: nat)
    requires i <= |hs|
    ensures hs == hs[..i] + hs[i..]
  {
  }

  /** The sums over a list cut in three. */
  lemma ItemsThree(hs: seq<Head>, p: nat, t: nat)
    requires p <= t <= |hs|
    ensures HeadsItems(hs) == HeadsItems(hs[..p]) + HeadsItems(hs[p..t]) + HeadsItems(hs[t..])
  {
    Cut(hs, t);
    ItemsAppend(hs[..t], hs[t..]);
    Cut(hs[..t], p);
    assert hs[..t][..p] == hs[..p] && hs[..t][p..] == hs[p..t];
    ItemsAppend(hs[..p], hs[p..t]);
  }

  lemma WeightThree(hs: seq<Head>, p: nat, t: nat)
    requires p <= t <= |hs|
    ensures Weight(hs) == Weight(hs[..p]) + Weight(hs[p..t]) + Weight(hs[t..])
  {
    assert hs == hs[..t] + hs[t..];
    WeightAppend(hs[..t], hs[t..]);
    assert hs[..t] == hs[..p] + hs[p..t];
    WeightAppend(hs[..p], hs[p..t]);
  }

  /** The items of a list with one head put between two parts. */
  lemma ItemsSplice(a: seq<Head>, h: Head, c: seq<Head>)
    ensures HeadsItems(a + [h] + c) == HeadsItems(a) + Items(h.queue) + HeadsItems(c)
  {
    ItemsAppend(a + [h], c);
    ItemsAppend(a, [h]);
    assert HeadsItems([h]) == Items(h.queue) + HeadsItems([]);
  }

  lemma WeightSplice(a: seq<Head>, h: Head, c: seq<Head>)
    ensures Weight(a + [h] + c) == Weight(a) + Pow2(h.rank) + Weight(c)
  {
    WeightAppend(a + [h], c);
    WeightAppend(a, [h]);
    assert Weight([h]) == Pow2(h.rank) + Weight([]);
  }

  /** Meld puts back the heads a carry run absorbed, inside the new queue. */
  lemma MeldItems(hs: seq<Head>, p: nat, t: nat, q: Tree, q0: Tree)
    requires p <= t <= |hs| && q.Node?
    requires Items(q) == Items(q0) + HeadsItems(hs[p..t])
    ensures HeadsItems(hs[..p] + [Head(q, q.rank, 0)] + hs[t..]) == HeadsItems(hs) + Items(q0)
  {
    ItemsThree(hs, p, t);
    ItemsSplice(hs[..p], Head(q, q.rank, 0), hs[t..]);
  }

  lemma MeldWeight(hs: seq<Head>, p: nat, t: nat, q: Tree, q0: Tree)
    requires p <= t <= |hs| && q.Node? && q0.Node?
    requires Pow2(q.rank) == Pow2(q0.rank) + Weight(hs[p..t])
    ensures Weight(hs[..p] + [Head(q, q.rank, 0)] + hs[t..]) == Weight(hs) + Pow2(q0.rank)
  {
    WeightThree(hs, p, t);
    WeightSplice(hs[..p], Head(q, q.rank, 0), hs[t..]);
  }

  /** Regrouping a multiset sum, stated on bare multisets so that no item
      function is unfolded while it is used. */
  lemma Regroup(l: multiset<int>, q: multiset<int>, e: multiset<int>, q0: multiset<int>,
                m: multiset<int>, m1: multiset<int>)
    requires l == q + e && q == q0 + m && m1 == m + e
    ensures l == q0 + m1
  {
  }

  /** meld's first loop: the first head whose rank is not below the given one. */
  method FirstAtLeast(hs: seq<Head>, rank: nat) returns (t: nat)
    ensures t <= |hs|
    ensures forall j :: 0 <= j < t ==> hs[j].rank < rank
    ensures t < |hs| ==> rank <= hs[t].rank
  {
    t := 0;
    while t < |hs| && rank > hs[t].rank
      invariant t <= |hs|
      invariant forall j :: 0 <= j < t ==> hs[j].rank < rank
    {
      t := t + 1;
    }
  }

  /** What meld's carry loop keeps: q is a valid queue that holds q0 and the
      heads p..t-1 it absorbed, its rank counts them, and it is not above the
      rank of the next head. */
  ghost predicate Carried(hs: seq<Head>, p: nat, t: nat, q: Tree, q0: Tree, r: int) {
    && p <= t <= |hs| && q0.Node?
    && q.Node? && TreeOk(q, r) && q.ckey < INFTY
    && q.rank == q0.rank + (t - p)
    && (t < |hs| ==> q.rank <= hs[t].rank)
    && Items(q) == Items(q0) + HeadsItems(hs[p..t])
    && Pow2(q.rank) == Pow2(q0.rank) + Weight(hs[p..t])
  }

  lemma CarryStart(hs: seq<Head>, p: nat, q0: Tree, r: int)
    requires p <= |hs| && q0.Node? && TreeOk(q0, r) && q0.ckey < INFTY
    requires p < |hs| ==> q0.rank <= hs[p].rank
    ensures Carried(hs, p, p, q0, q0, r)
  {
    assert hs[p..p] == [];
  }

  /** The sums of a carry run after one more link. */
  lemma CarryNext(hs: seq<Head>, p: nat, t: nat, q: Tree, l: Tree, q0: Tree)
    requires p <= t < |hs| && q.Node? && q0.Node? && l.Node?
    requires l.rank == q.rank + 1 && q.rank == hs[t].rank
    requires Items(l) == Items(q) + Items(hs[t].queue)
    requires Items(q) == Items(q0) + HeadsItems(hs[p..t])
    requires Pow2(q.rank) == Pow2(q0.rank) + Weight(hs[p..t])
    ensures Items(l) == Items(q0) + HeadsItems(hs[p..t + 1])
    ensures Pow2(l.rank) == Pow2(q0.rank) + Weight(hs[p..t + 1])
  {
    CarrySums(hs, p, t);
    Regroup(Items(l), Items(q), Items(hs[t].queue), Items(q0), HeadsItems(hs[p..t]), HeadsItems(hs[p..t + 1]));
  }

  /** One pass of meld's carry loop: q and head t have the same rank and are linked. */
  method CarryOnce(hs: seq<Head>, p: nat, t: nat, q: Tree, q0: Tree, ghost r: int) returns (l: Tree)
    requires HeadsOk(hs, r) && Ordered(hs) && Carried(hs, p, t, q, q0, r)
    requires t < |hs| && q.rank == hs[t].rank
    ensures Carried(hs, p, t + 1, l, q0, r)
  {
    assert HeadOk(hs[t], r);
    l := LinkQueues(q, hs[t].queue, r);
    CarryNext(hs, p, t, q, l, q0);
    if t + 1 < |hs| {
      assert hs[t].rank < hs[t + 1].rank;
    }
  }

  /** meld's carry loop: while the next head has the rank of the queue being
      melded, the two are linked and the run of absorbed heads grows. */
  method Carry(hs: seq<Head>, p: nat, q0: Tree, ghost r: int) returns (q: Tree, t: nat)
    requires HeadsOk(hs, r) && Ordered(hs) && p <= |hs|
    requires q0.Node? && TreeOk(q0, r) && q0.ckey < INFTY
    requires p < |hs| ==> q0.rank <= hs[p].rank
    ensures Carried(hs, p, t, q, q0, r)
    ensures t < |hs| ==> q.rank < hs[t].rank
  {
    t := p;
    q := q0;
    CarryStart(hs, p, q0, r);
    while t < |hs| && q.rank == hs[t].rank
      invariant Carried(hs, p, t, q, q0, r)
      decreases |hs| - t
    {
      q := CarryOnce(hs, p, t, q, q0, r);
      t := t + 1;
    }
  }

  /** Splicing the melded queue in place of the heads it absorbed. */
  lemma MeldSplice(hs: seq<Head>, p: nat, t: nat, q: Tree, q0: Tree, r: int)
    requires HeadsOk(hs, r) && Ordered(hs) && OffsetsOk(hs)
    requires p <= t <= |hs| && q0.Node?
    requires forall j :: 0 <= j < p ==> hs[j].rank < q0.rank
    requires p < |hs| ==> q0.rank <= hs[p].rank
    requires q.Node? && TreeOk(q, r) && q.ckey < INFTY
    requires q.rank == q0.rank + (t - p)
    requires t < |hs| ==> q.rank < hs[t].rank
    requires Items(q) == Items(q0) + HeadsItems(hs[p..t])
    requires Pow2(q.rank) == Pow2(q0.rank) + Weight(hs[p..t])
    ensures var hs' := hs[..p] + [Head(q, q.rank, 0)] + hs[t..];
      && HeadsOk(hs', r) && Ordered(hs')
      && (forall j :: p < j < |hs'| ==> hs'[j].off == MinOf(Keys(hs')[j..]))
      && HeadsItems(hs') == HeadsItems(hs) + Items(q0)
      && Weight(hs') == Weight(hs) + Pow2(q0.rank)
  {
    var h := Head(q, q.rank, 0);
    SpliceOrdered(hs, p, t, h, q0.rank);
    SpliceHeadsOk(hs, p, t, h, r);
    SpliceOffsets(hs, p, t, h);
    MeldItems(hs, p, t, q, q0);
    MeldWeight(hs, p, t, q, q0);
  }

  /** The heads a carry run absorbs, one more at a time. */
  lemma CarrySums(hs: seq<Head>, p: nat, t: nat)
    requires p <= t < |hs|
    ensures HeadsItems(hs[p..t + 1]) == HeadsItems(hs[p..t]) + Items(hs[t].queue)
    ensures Weight(hs[p..t + 1]) == Weight(hs[p..t]) + Pow2(hs[t].rank)
  {
    assert hs[p..t + 1] == hs[p..t] + [hs[t]];
    ItemsAppend(hs[p..t], [hs[t]]);
    WeightAppend(hs[p..t], [hs[t]]);
    assert HeadsItems([hs[t]]) == Items(hs[t].queue) + HeadsItems([]);
    assert Weight([hs[t]]) == Pow2(hs[t].rank) + Weight([]);
  }

  class SoftHeap {
    /** The error rate parameter: item lists are concatenated only above rank r. */
    const r: int
    /** The heads between the header and the tail sentinel. */
    var heads: seq<Head>

    ghost predicate Valid()
      reads this
    {
      HeadsOk(heads, r) && Ordered(heads) && OffsetsOk(heads)
    }

    /** Every item the heap holds. */
    ghost function Contents(): multiset<int>
      reads this
    {
      HeadsItems(heads)
    }

    ghost function Total(): nat
      reads this
    {
      Weight(heads)
    }

    ghost function Stale(): nat
      reads this
    {
      HeadsStale(heads)
    }

    /** A new heap: the header is followed directly by the tail. */
    constructor(r: int)
      ensures Valid() && this.r == r && heads == []
      ensures Contents() == multiset{} && Total() == 0
    {
      this.r := r;
      heads := [];
    }

    /** Recomputes suffix_min for head p and every head before it, given that
        the later heads are right. */
    method FixMinlist(p: int)
      requires -1 <= p < |heads|
      requires forall j :: p < j < |heads| ==> heads[j].off == MinOf(Keys(heads)[j..])
      modifies this
      ensures SameShape(heads, old(heads)) && OffsetsOk(heads)
    {
      if p >= 0 {
        var hs := heads;
        var tmpmin := if p + 1 == |hs| then p else p + 1 + hs[p + 1].off;
        var i := p;
        while i >= 0
          invariant -1 <= i <= p < |hs| && SameShape(hs, old(heads))
          invariant i <= tmpmin < |hs|
          invariant forall j :: i < j < |hs| ==> hs[j].off == MinOf(Keys(hs)[j..])
          invariant if i + 1 == |hs| then tmpmin == i else tmpmin == i + 1 + MinOf(Keys(hs)[i + 1..])
        {
          var m := if Key(hs[i]) < Key(hs[tmpmin]) then i else tmpmin;
          var hs2 := hs[i := hs[i].(off := m - i)];
          FixStep(old(heads), hs, hs2, i, tmpmin, m);
          hs, tmpmin, i := hs2, m, i - 1;
        }
        heads := hs;
      }
    }

    /** Carry-style meld of a queue into the head list. */
    method Meld(q0: Tree)
      requires Valid() && q0.Node? && TreeOk(q0, r) && q0.ckey < INFTY
      modifies this
      ensures Valid()
      ensures Contents() == old(Contents()) + Items(q0)
      ensures Total() == old(Total()) + Pow2(q0.rank)
    {
      var hs := heads;
      var p := FirstAtLeast(hs, q0.rank);
      var q, t := Carry(hs, p, q0, r);
      assert Carried(hs, p, t, q, q0, r);
      var h := Head(q, q.rank, 0);
      MeldSplice(hs, p, t, q, q0, r);
      var hs' := hs[..p] + [h] + hs[t..];
      heads := hs';
      FixMinlist(p);
      SameShapeSums(heads, hs');
      SameShapeValid(heads, hs', r);
    }

    /** insert: a rank-0 node holding just the new key, melded in. */
    method Insert(newKey: int)
      requires Valid() && newKey < INFTY
      modifies this
      ensures Valid()
      ensures Contents() == old(Contents()) + multiset{newKey}
      ensures Total() == old(Total()) + 1
    {
      var q := Node(newKey, 0, Nil, Nil, [newKey]);
      Meld(q);
    }
  
    /** Unlinks head h and repairs the suffix_min pointers before it. */
    method RemoveHead(h: nat)
      requires Valid() && h < |heads|
      modifies this
      ensures Valid()
      ensures Contents() + Items(old(heads)[h].queue) == old(Contents())
      ensures Total() + Pow2(old(heads)[h].rank) == old(Total())
    {
      var hs := heads;
      var hs' := hs[..h] + hs[h + 1..];
      RemoveOk(hs, h, r);
      RemoveOffsets(hs, h);
      RemoveItems(hs, h);
      RemoveWeight(hs, h);
      heads := hs';
      FixMinlist(h - 1);
      SameShapeSums(heads, hs');
      SameShapeValid(heads, hs', r);
    }

    /** Puts a sifted queue in head h and repairs the suffix_min pointers up to it. */
    method ReplaceQueue(h: nat, w: Tree)
      requires Valid() && h < |heads|
      requires w.Node? && TreeOk(w, r) && w.rank == heads[h].rank && w.ckey < INFTY
      modifies this
      ensures Valid()
      ensures Contents() + Items(old(heads)[h].queue) == old(Contents()) + Items(w)
      ensures Total() == old(Total())
      ensures Stale() + StaleCount(old(heads)[h].queue) == old(Stale()) + StaleCount(w)
    {
      var hs := heads;
      var hs' := hs[h := hs[h].(queue := w)];
      ReplaceOk(hs, h, w, r);
      ReplaceOffsets(hs, h, w);
      ReplaceItems(hs, h, w);
      ReplaceWeight(hs, h, w);
      ReplaceStale(hs, h, w);
      heads := hs';
      FixMinlist(h);
      SameShapeSums(heads, hs');
      SameShapeValid(heads, hs', r);
    }

    /** Re-melding the children of head h's root, after unlinking the head:
        the weight drops, since the children's ranks are below the root's. */
    method Remeld(h: nat)
      requires Valid() && h < |heads| && heads[h].queue.il == []
      modifies this
      ensures Valid() && Contents() == old(Contents()) && Total() < old(Total())
    {
      var root := heads[h].queue;
      assert HeadOk(heads[h], r);
      ghost var c0 := Contents();
      RemoveHead(h);
      ghost var w1 := Total();
      var tmp := root;
      while tmp.next.Node?
        invariant Valid() && tmp.Node? && TreeOk(tmp, r) && tmp.il == []
        invariant Contents() + Items(tmp) == c0
        invariant Total() + ChildWeight(tmp) == w1 + ChildWeight(root)
        decreases Size(tmp)
      {
        ChainStep(tmp, r);
        ghost var c := Contents();
        Meld(tmp.child);
        Regroup2(Contents(), c, Items(tmp.child), Items(tmp.next), Items(tmp), c0);
        tmp := tmp.next;
      }
      ChainEnd(tmp, r);
      ChildWeightBelow(root, r);
    }

    /** Sifting head h's root: the items stay and one stale node fewer is
        left, and a root that comes back exhausted is unlinked. */
    method SiftHead(h: nat)
      requires Valid() && h < |heads| && heads[h].queue.il == []
      modifies this
      ensures Valid() && Contents() == old(Contents())
      ensures Total() < old(Total()) || (Total() == old(Total()) && Stale() < old(Stale()))
    {
      var root := heads[h].queue;
      assert HeadOk(heads[h], r);
      SiftOk(root, r);
      var w := Sift(root, r);
      assert StaleCount(w) < StaleCount(root);
      if w.ckey == INFTY {
        assert Items(w) == multiset{};
        RemoveHead(h);
      } else {
        ghost var c0 := Contents();
        ReplaceQueue(h, w);
        Cancel(Contents(), c0, Items(root), Items(w), multiset{});
      }
    }

    /** One round of deletemin's outer loop, on the head h whose root has run
        out of items: the root's children are melded back when its `next`
        chain is shorter than half its rank, and the root is sifted otherwise. */
    method Replenish(h: nat)
      requires Valid() && h < |heads| && heads[h].queue.il == []
      modifies this
      ensures Valid() && Contents() == old(Contents())
      ensures Total() < old(Total()) || (Total() == old(Total()) && Stale() < old(Stale()))
    {
      var tmp := heads[h].queue;
      assert HeadOk(heads[h], r);
      var childcount := 0;
      while tmp.next.Node?
        invariant tmp.Node?
        decreases Size(tmp)
      {
        tmp := tmp.next;
        childcount := childcount + 1;
      }
      if childcount < heads[h].rank / 2 {
        Remeld(h);
      } else {
        SiftHead(h);
      }
    }

    /** deletemin: while the head suffix_min picks has no items left, it is
        replenished; then the first item of its list is taken.  When every
        head's rank is at most r (so no item list was ever concatenated), the
        item taken is the least one. */
    method DeleteMin() returns (min: int)
      requires Valid() && Contents() != multiset{}
      modifies this
      ensures Valid()
      ensures min in old(Contents()) && Contents() == old(Contents()) - multiset{min}
      ensures Total() <= old(Total())
      ensures old(r >= 0 && Total() < Pow2(r + 1)) ==> forall x :: x in old(Contents()) ==> min <= x
    {
      ItemsNonEmpty(heads);
      assert Keys(heads)[0..] == Keys(heads);
      var h := heads[0].off;
      while heads[h].queue.il == []
        invariant Valid() && Contents() == old(Contents()) && Total() <= old(Total())
        invariant heads != [] && h == heads[0].off < |heads|
        decreases Total(), Stale()
      {
        Replenish(h);
        ItemsNonEmpty(heads);
        assert Keys(heads)[0..] == Keys(heads);
        h := heads[0].off;
      }
      if r >= 0 && Total() < Pow2(r + 1) {
        Exactness(heads, r);
      }
      var root := heads[h].queue;
      min := root.il[0];
      PopFront(heads, h, r);
      ghost var c := Contents();
      heads := heads[h := heads[h].(queue := root.(il := root.il[1..]))];
      TakeOne(Contents(), c, min);
    }
  }

  // ---------------------------------------------------------------------------
  // The heap used as an ordinary priority queue
  // ---------------------------------------------------------------------------

  /** The keys lo, lo+1, ..., hi-1. */
  function Span(lo: int, hi: int): multiset<int>
    decreases hi - lo
  {
    if lo >= hi then multiset{} else Span(lo, hi - 1) + multiset{hi - 1}
  }

  lemma {:induction false} SpanHas(lo: int, hi: int, x: int)
    ensures x in Span(lo, hi) <==> lo <= x < hi
    decreases hi - lo
  {
    if lo < hi {
      SpanHas(lo, hi - 1, x);
    }
  }

  lemma {:induction false} SpanDropLow(lo: int, hi: int)
    requires lo < hi
    ensures Span(lo, hi) - multiset{lo} == Span(lo + 1, hi)
    decreases hi - lo
  {
    if lo + 1 < hi {
      SpanDropLow(lo, hi - 1);
      SpanHas(lo, hi - 1, lo);
      DropBelowAdd(Span(lo, hi - 1), lo, hi - 1);
    } else {
      assert Span(lo, hi) == multiset{} + multiset{lo};
    }
  }

  /** Taking x out before or after adding another element c is the same. */
  lemma DropBelowAdd(a: multiset<int>, x: int, c: int)
    requires x in a
    ensures (a + multiset{c}) - multiset{x} == (a - multiset{x}) + multiset{c}
  {
    forall y ensures ((a + multiset{c}) - multiset{x})[y] == ((a - multiset{x}) + multiset{c})[y] {
    }
  }

  lemma {:induction false} Pow2Above(n: nat)
    ensures n < Pow2(n)
  {
    if n > 0 {
      Pow2Above(n - 1);
    }
  }

  /** Inserting 0, 1, ..., n-1 into a heap with n <= r (the test uses
      r = 10000 and n = 10) and then deleting n times gives the keys back in
      increasing order: with fewer than 2^(r+1) nodes no head gets a rank
      above r, so the heap is exact. */
  method DrainInOrder(r: nat, n: nat) returns (out: seq<int>)
    requires n <= r && n <= INFTY
    ensures out == seq(n, i => i)
  {
    var heap := new SoftHeap(r);
    Fill(heap, n);
    out := Drain(heap, n);
  }

  /** Inserting 0, 1, ..., n-1 into an empty heap. */
  method Fill(heap: SoftHeap, n: nat)
    requires heap.Valid() && heap.Contents() == multiset{} && heap.Total() == 0 && n <= INFTY
    modifies heap
    ensures heap.Valid() && heap.Contents() == Span(0, n) && heap.Total() == n
  {
    var i := 0;
    while i < n
      invariant 0 <= i <= n
      invariant heap.Valid() && heap.Contents() == Span(0, i) && heap.Total() == i
    {
      heap.Insert(i);
      i := i + 1;
    }
  }

  /** Deleting n times from a heap holding 0, 1, ..., n-1 with n <= r: it
      has fewer than 2^(r+1) nodes, and so stays exact. */
  method Drain(heap: SoftHeap, n: nat) returns (out: seq<int>)
    requires heap.Valid() && n <= heap.r
    requires heap.Contents() == Span(0, n) && heap.Total() == n
    modifies heap
    ensures out == seq(n, i => i)
  {
    out := [];
    var k := 0;
    while k < n
      invariant 0 <= k <= n
      invariant heap.Valid()
      invariant heap.Contents() == Span(k, n) && heap.Total() <= n
      invariant out == Upto(k)
    {
      var min := DrainOne(heap, k, n);
      out := out + [min];
      k := k + 1;
    }
  }

  /** 0, 1, ..., n-1. */
  function Upto(n: nat): (s: seq<int>)
    ensures s == seq(n, i => i)
  {
    if n == 0 then [] else Upto(n - 1) + [n - 1]
  }

  /** One deletion from an exact heap holding k, k + 1, ..., n-1 returns k. */
  method DrainOne(heap: SoftHeap, k: int, n: nat) returns (min: int)
    requires heap.Valid() && n <= heap.r
    requires k < n && heap.Contents() == Span(k, n) && heap.Total() <= n
    modifies heap
    ensures heap.Valid() && heap.Contents() == Span(k + 1, n) && heap.Total() <= n
    ensures min == k
  {
    Pow2Above(heap.r + 1);
    SpanHas(k, n, k);
    min := heap.DeleteMin();
    DrainNext(k, n, min);
  }

  /** The least element of Span(k, n) is k, and taking it leaves Span(k + 1, n). */
  lemma DrainNext(k: int, n: int, min: int)
    requires k < n && min in Span(k, n) && forall x :: x in Span(k, n) ==> min <= x
    ensures min == k && Span(k, n) - multiset{min} == Span(k + 1, n)
  {
    SpanHas(k, n, k);
    SpanHas(k, n, min);
    SpanDropLow(k, n);
  }
}
