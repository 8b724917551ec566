/**
 The array min-heap shared by Space-Saving and the count heap, as a value: the sift-down
 that recurses and then runs its own loop again, and the sift-up that stops at index 1.
 */
module MinHeap {

  function Parent(c: nat): nat
    requires c > 0
  {
    (c - 1) / 2
  }

  function Swapped<T>(h: seq<T>, i: nat, j: nat): (r: seq<T>)
    requires i < |h| && j < |h|
    ensures |r| == |h|
  {
    h[i := h[j]][j := h[i]]
  }

  lemma SwapPermutes<T>(h: seq<T>, i: nat, j: nat)
    requires i < |h| && j < |h|
    ensures multiset(Swapped(h, i, j)) == multiset(h)
  {
  }

  /** The node or a strictly smaller child; of two, the smaller. */
  function Least<T>(freq: T -> nat, h: seq<T>, i: nat): (m: nat)
    requires i < |h|
    ensures m < |h| && freq(h[m]) <= freq(h[i])
    ensures m != i ==> (m == 2 * i + 1 || m == 2 * i + 2) && freq(h[m]) < freq(h[i])
    ensures 2 * i + 1 < |h| ==> freq(h[m]) <= freq(h[2 * i + 1])
    ensures 2 * i + 2 < |h| ==> freq(h[m]) <= freq(h[2 * i + 2])
  {
    var l := if 2 * i + 1 < |h| && freq(h[2 * i + 1]) < freq(h[i]) then 2 * i + 1 else i;
    if 2 * i + 2 < |h| && freq(h[2 * i + 2]) < freq(h[l]) then 2 * i + 2 else l
  }

  /** The sift-down from node i: swap with the least child, sift there, then look at node i again. */
  function Down<T>(freq: T -> nat, h: seq<T>, i: nat): (r: seq<T>)
    ensures |r| == |h|
    ensures forall j {:trigger r[j]} :: 0 <= j < i && j < |h| ==> r[j] == h[j]
    decreases |h| - i, if i < |h| then freq(h[i]) else 0
  {
    if i < |h| / 2 then
      var m := Least(freq, h, i);
      if m != i then Down(freq, Down(freq, Swapped(h, i, m), m), i) else h
    else h
  }

  /** One turn of the sift-down loop leaves the rest of the work unchanged and lowers node i. */
  lemma DownTurn<T>(freq: T -> nat, h: seq<T>, i: nat)
    requires i < |h| / 2 && Least(freq, h, i) != i
    ensures var m := Least(freq, h, i);
            var g := Down(freq, Swapped(h, i, m), m);
            Down(freq, h, i) == Down(freq, g, i) && freq(g[i]) < freq(h[i])
  {
  }

  /** The sift-up from node i. */
  function Up<T>(freq: T -> nat, h: seq<T>, i: nat): (r: seq<T>)
    requires i < |h|
    ensures |r| == |h|
    decreases i
  {
    if i <= 1 || freq(h[Parent(i)]) <= freq(h[i]) then h
    else Up(freq, Swapped(h, i, Parent(i)), Parent(i))
  }

  /** Sifting only permutes. */
  lemma {:induction false} DownPermutes<T>(freq: T -> nat, h: seq<T>, i: nat)
    ensures multiset(Down(freq, h, i)) == multiset(h)
    decreases |h| - i, if i < |h| then freq(h[i]) else 0
  {
    if i < |h| / 2 {
      var m := Least(freq, h, i);
      if m != i {
        SwapPermutes(h, i, m);
        DownPermutes(freq, Swapped(h, i, m), m);
        DownPermutes(freq, Down(freq, Swapped(h, i, m), m), i);
      }
    }
  }

  lemma {:induction false} UpPermutes<T>(freq: T -> nat, h: seq<T>, i: nat)
    requires i < |h|
    ensures multiset(Up(freq, h, i)) == multiset(h)
    decreases i
  {
    if i > 1 && freq(h[Parent(i)]) > freq(h[i]) {
      SwapPermutes(h, i, Parent(i));
      UpPermutes(freq, Swapped(h, i, Parent(i)), Parent(i));
    }
  }

  // ---------- Order ----------

  predicate Edge<T>(freq: T -> nat, h: seq<T>, c: nat)
    requires 0 < c < |h|
  {
    freq(h[Parent(c)]) <= freq(h[c])
  }

  /** Every edge to a node from `lo` on is ordered; lo is 1 for a heap, 2 when the edge from the root to node 1 may be wrong. */
  ghost predicate OrderedFrom<T>(freq: T -> nat, h: seq<T>, lo: nat)
    requires lo > 0
  {
    forall c :: lo <= c < |h| ==> Edge(freq, h, c)
  }

  /** Ordered except below node i, whose children are still no smaller than its parent. */
  ghost predicate DownReady<T>(freq: T -> nat, h: seq<T>, lo: nat, i: nat)
    requires lo > 0
  {
    && (forall c :: lo <= c < |h| && Parent(c) != i ==> Edge(freq, h, c))
    && (lo <= i < |h| ==> forall c :: 0 < c < |h| && Parent(c) == i ==> freq(h[Parent(i)]) <= freq(h[c]))
  }

  lemma ChildOf(c: nat, i: nat)
    requires c > 0
    ensures Parent(c) == i <==> c == 2 * i + 1 || c == 2 * i + 2
    ensures Parent(c) < c
  {
  }

  lemma NoChildren<T>(h: seq<T>, i: nat, c: nat)
    requires i >= |h| / 2 && 0 < c < |h|
    ensures Parent(c) != i
  {
  }

  lemma SwapKeepsDownReady<T>(freq: T -> nat, h: seq<T>, lo: nat, i: nat)
    requires 0 < lo <= 2 && i < |h| && DownReady(freq, h, lo, i) && Least(freq, h, i) != i
    ensures var m := Least(freq, h, i);
            DownReady(freq, Swapped(h, i, m), lo, m)
  {
    var m := Least(freq, h, i);
    var g := Swapped(h, i, m);
    ChildOf(m, i);
    forall c | lo <= c < |g| && Parent(c) != m
      ensures Edge(freq, g, c)
    {
      ChildOf(c, i);
      if c == i {
        assert Parent(m) == i;
      }
    }
    forall c | 0 < c < |g| && Parent(c) == m
      ensures freq(g[Parent(m)]) <= freq(g[c])
    {
      ChildOf(c, m);
      assert Edge(freq, h, c);
    }
  }

  lemma OrderedIsSettled<T>(freq: T -> nat, h: seq<T>, lo: nat, i: nat)
    requires lo > 0 && OrderedFrom(freq, h, lo) && lo <= 2 * i + 1
    ensures Down(freq, h, i) == h
  {
    if i < |h| / 2 {
      assert Edge(freq, h, 2 * i + 1);
      if 2 * i + 2 < |h| {
        assert Edge(freq, h, 2 * i + 2);
      }
    }
  }

  /** Sifting down restores order wherever it was promised. */
  lemma {:induction false} DownRestoresOrder<T>(freq: T -> nat, h: seq<T>, lo: nat, i: nat)
    requires 0 < lo <= 2 && DownReady(freq, h, lo, i) && lo <= 2 * i + 1
    ensures OrderedFrom(freq, Down(freq, h, i), lo)
    decreases |h| - i
  {
    if i < |h| / 2 {
      var m := Least(freq, h, i);
      if m != i {
        ChildOf(m, i);
        SwapKeepsDownReady(freq, h, lo, i);
        var g := Swapped(h, i, m);
        DownRestoresOrder(freq, g, lo, m);
        OrderedIsSettled(freq, Down(freq, g, m), lo, i);
      } else {
        forall c | lo <= c < |h|
          ensures Edge(freq, h, c)
        {
        }
      }
    } else {
      forall c | lo <= c < |h|
        ensures Edge(freq, h, c)
      {
        NoChildren(h, i, c);
      }
    }
  }

  /** Ordered except above node i, whose children are no smaller than its parent. */
  ghost predicate UpReady<T>(freq: T -> nat, h: seq<T>, i: nat)
    requires i < |h|
  {
    && (forall c :: 2 <= c < |h| && c != i ==> Edge(freq, h, c))
    && (i >= 2 ==> forall c :: 0 < c < |h| && Parent(c) == i ==> freq(h[Parent(i)]) <= freq(h[c]))
  }

  /** Sifting up orders every edge but the one from the root to node 1, which it never looks at. */
  lemma {:induction false} UpRestoresOrder<T>(freq: T -> nat, h: seq<T>, i: nat)
    requires i < |h| && UpReady(freq, h, i)
    ensures OrderedFrom(freq, Up(freq, h, i), 2)
    decreases i
  {
    if i > 1 && freq(h[Parent(i)]) > freq(h[i]) {
      var p := Parent(i);
      var g := Swapped(h, i, p);
      forall c | 2 <= c < |g| && c != p
        ensures Edge(freq, g, c)
      {
        assert c == i || Edge(freq, h, c);
      }
      if p >= 2 {
        assert Edge(freq, h, p);
        forall c | 0 < c < |g| && Parent(c) == p
          ensures freq(g[Parent(p)]) <= freq(g[c])
        {
          assert c == i || Edge(freq, h, c);
        }
      }
      UpRestoresOrder(freq, g, p);
    } else {
      forall c | 2 <= c < |h|
        ensures Edge(freq, h, c)
      {
      }
    }
  }

  /** In an ordered heap the root is least. */
  lemma {:induction false} RootIsLeast<T>(freq: T -> nat, h: seq<T>, c: nat)
    requires c < |h| && OrderedFrom(freq, h, 1)
    ensures freq(h[0]) <= freq(h[c])
  {
    if c > 0 {
      assert Edge(freq, h, c);
      RootIsLeast(freq, h, Parent(c));
    }
  }

  /** If only the root's left edge may be wrong, the root is least exactly when that edge is right. */
  lemma RootIsLeastExactlyWhen<T>(freq: T -> nat, h: seq<T>)
    requires |h| > 0 && OrderedFrom(freq, h, 2)
    ensures (forall c :: 0 <= c < |h| ==> freq(h[0]) <= freq(h[c])) <==> |h| == 1 || freq(h[0]) <= freq(h[1])
  {
    if |h| == 1 || freq(h[0]) <= freq(h[1]) {
      forall c | 1 <= c < |h|
        ensures Edge(freq, h, c)
      {
      }
      forall c | 0 <= c < |h|
        ensures freq(h[0]) <= freq(h[c])
      {
        RootIsLeast(freq, h, c);
      }
    }
  }

  // ---------- The three uses ----------

  /** Raising a node and sifting it down: any sift from the root restores full order. */
  lemma BumpKeepsOrder<T>(freq: T -> nat, h: seq<T>, lo: nat, p: nat, x: T)
    requires 0 < lo <= 2 && OrderedFrom(freq, h, lo) && p < |h| && freq(x) >= freq(h[p])
    ensures OrderedFrom(freq, Down(freq, h[p := x], p), if p == 0 then 1 else lo)
  {
    var g, l := h[p := x], if p == 0 then 1 else lo;
    forall c | l <= c < |g| && Parent(c) != p
      ensures Edge(freq, g, c)
    {
      ChildOf(c, p);
      assert Edge(freq, h, c);
    }
    forall c | l <= p && 0 < c < |g| && Parent(c) == p
      ensures freq(g[Parent(p)]) <= freq(g[c])
    {
      ChildOf(c, p);
      assert Edge(freq, h, c) && Edge(freq, h, p);
    }
    DownRestoresOrder(freq, g, l, p);
  }

  /** Putting anything in the root's place and sifting it down. */
  lemma ReplaceRootOrders<T>(freq: T -> nat, h: seq<T>, x: T)
    requires |h| > 0 && OrderedFrom(freq, h, 2)
    ensures OrderedFrom(freq, Down(freq, h[0 := x], 0), 1)
  {
    forall c | 1 <= c < |h| && Parent(c) != 0
      ensures Edge(freq, h[0 := x], c)
    {
      assert Edge(freq, h, c);
    }
    DownRestoresOrder(freq, h[0 := x], 1, 0);
  }

  /** Appending and sifting up. */
  lemma AppendKeepsOrder<T>(freq: T -> nat, h: seq<T>, x: T)
    requires OrderedFrom(freq, h, 2)
    ensures OrderedFrom(freq, Up(freq, h + [x], |h|), 2)
  {
    var g := h + [x];
    forall c | 2 <= c < |g| && c != |h|
      ensures Edge(freq, g, c)
    {
      assert Edge(freq, h, c);
    }
    forall c | 0 < c < |g|
      ensures Parent(c) != |h|
    {
      ChildOf(c, |h|);
    }
    UpRestoresOrder(freq, g, |h|);
  }
}
