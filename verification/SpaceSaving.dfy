/** The Space-Saving stream summary on weighted packets.  Frequencies are numbers here; `SpaceSavingSimd` has the 32-bit fields. */
module SpaceSaving {
  import opened Machine
  import opened AggCache
  import opened MinHeap

  datatype Node = Node(flowid: uint32, freq: nat)

  function FreqOf(): Node -> nat {
    (n: Node) => n.freq
  }

  /** First position of a flow, or the number of nodes. */
  function Find(h: seq<Node>, k: uint32): (p: nat)
    ensures p <= |h|
    ensures p < |h| ==> h[p].flowid == k
    ensures forall j :: 0 <= j < p ==> h[j].flowid != k
  {
    FindFrom(h, k, 0)
  }

  function FindFrom(h: seq<Node>, k: uint32, i: nat): (p: nat)
    requires i <= |h|
    ensures i <= p <= |h|
    ensures p < |h| ==> h[p].flowid == k
    ensures forall j :: i <= j < p ==> h[j].flowid != k
    decreases |h| - i
  {
    if i == |h| || h[i].flowid == k then i else FindFrom(h, k, i + 1)
  }

  predicate Tracked(h: seq<Node>, k: uint32) {
    Find(h, k) < |h|
  }

  /** v packets of flow k: counted, appended, or put in the root's place on top of its count. */
  function Updated(size: nat, h: seq<Node>, k: uint32, v: uint32): seq<Node> {
    var p := Find(h, k);
    if p < |h| then h[p := h[p].(freq := h[p].freq + v)]
    else if |h| < size then h + [Node(k, v)]
    else if |h| > 0 then h[0 := Node(k, h[0].freq + v)]
    else h
  }

  /** Puts the changed node back in order. */
  function Settled(size: nat, h: seq<Node>, k: uint32, g: seq<Node>): (r: seq<Node>)
    requires |g| >= |h| && (!Tracked(h, k) && |h| < size ==> |g| > |h|)
    ensures |r| == |g|
  {
    if Tracked(h, k) then Down(FreqOf(), g, Find(h, k))
    else if |h| < size then Up(FreqOf(), g, |h|)
    else Down(FreqOf(), g, 0)
  }

  /** One weighted packet. */
  function Saved(size: nat, h: seq<Node>, k: uint32, v: uint32): seq<Node> {
    Settled(size, h, k, Updated(size, h, k, v))
  }

  /** Does this packet put a new flow in the root's place? */
  predicate Replaces(size: nat, h: seq<Node>, k: uint32) {
    !Tracked(h, k) && |h| == size
  }

  ghost predicate RootLeast(h: seq<Node>) {
    forall c :: 0 <= c < |h| ==> h[0].freq <= h[c].freq
  }

  // ---------- Shape of every reachable heap ----------

  ghost predicate Apart(h: seq<Node>, i: nat, j: nat)
    requires i < |h| && j < |h|
  {
    h[i].flowid != h[j].flowid
  }

  ghost predicate DistinctIds(h: seq<Node>) {
    forall i, j :: 0 <= i < j < |h| ==> Apart(h, i, j)
  }

  lemma AllApart(h: seq<Node>)
    requires DistinctIds(h)
    ensures forall i, j :: 0 <= i < j < |h| ==> h[i].flowid != h[j].flowid
  {
    forall i, j | 0 <= i < j < |h|
      ensures h[i].flowid != h[j].flowid
    {
      assert Apart(h, i, j);
    }
  }

  /** Distinct identifiers, seen as a property of the bag of nodes. */
  ghost predicate DistinctBag(b: multiset<Node>) {
    forall x, y :: x in b && y in b && x.flowid == y.flowid ==> x == y && b[x] == 1
  }

  lemma DistinctIsBagwise(h: seq<Node>)
    ensures DistinctIds(h) <==> DistinctBag(multiset(h))
  {
    if DistinctIds(h) {
      forall x, y | x in multiset(h) && y in multiset(h) && x.flowid == y.flowid
        ensures x == y && multiset(h)[x] == 1
      {
        var i :| 0 <= i < |h| && h[i] == x;
        var j :| 0 <= j < |h| && h[j] == y;
        AllApart(h);
        OnlyOnce(h, i);
      }
    } else {
      var i, j :| 0 <= i < j < |h| && !Apart(h, i, j);
      var b := multiset(h);
      assert h[i] in b && h[j] in b;
      if h[i] == h[j] {
        Twice(h, i, j);
      }
    }
  }

  lemma OnlyOnce(h: seq<Node>, i: nat)
    requires DistinctIds(h) && i < |h|
    ensures multiset(h)[h[i]] == 1
  {
    AllApart(h);
    assert h == h[..i] + [h[i]] + h[i + 1..];
    assert h[i] !in h[..i] && h[i] !in h[i + 1..];
  }

  lemma Twice(h: seq<Node>, i: nat, j: nat)
    requires i < j < |h| && h[i] == h[j]
    ensures multiset(h)[h[i]] >= 2
  {
    assert h == h[..i] + [h[i]] + h[i + 1..j] + [h[j]] + h[j + 1..];
  }

  /** Reordering keeps identifiers distinct. */
  lemma ReorderKeepsDistinct(h: seq<Node>, g: seq<Node>)
    requires multiset(h) == multiset(g) && DistinctIds(h)
    ensures DistinctIds(g)
  {
    DistinctIsBagwise(h);
    DistinctIsBagwise(g);
  }

  function SumFreq(h: seq<Node>): nat {
    SumUpTo(h, |h|)
  }

  function SumUpTo(h: seq<Node>, n: nat): nat
    requires n <= |h|
  {
    if n == 0 then 0 else SumUpTo(h, n - 1) + h[n - 1].freq
  }

  lemma {:induction false} SumUpToSame(h: seq<Node>, g: seq<Node>, n: nat)
    requires n <= |h| && n <= |g| && forall j :: 0 <= j < n ==> h[j].freq == g[j].freq
    ensures SumUpTo(h, n) == SumUpTo(g, n)
  {
    if n > 0 {
      SumUpToSame(h, g, n - 1);
    }
  }

  lemma {:induction false} SumUpToAt(h: seq<Node>, i: nat, x: Node, n: nat)
    requires i < n <= |h|
    ensures SumUpTo(h[i := x], n) + h[i].freq == SumUpTo(h, n) + x.freq
  {
    if n == i + 1 {
      SumUpToSame(h, h[i := x], i);
    } else {
      SumUpToAt(h, i, x, n - 1);
    }
  }

  lemma SumAt(h: seq<Node>, i: nat, x: Node)
    requires i < |h|
    ensures SumFreq(h[i := x]) + h[i].freq == SumFreq(h) + x.freq
  {
    SumUpToAt(h, i, x, |h|);
  }

  lemma SumOfSwap(h: seq<Node>, i: nat, j: nat)
    requires i < |h| && j < |h|
    ensures SumFreq(Swapped(h, i, j)) == SumFreq(h)
  {
    SumAt(h, i, h[j]);
    SumAt(h[i := h[j]], j, h[i]);
  }

  lemma {:induction false} SumOfDown(h: seq<Node>, i: nat)
    ensures SumFreq(Down(FreqOf(), h, i)) == SumFreq(h)
    decreases |h| - i, if i < |h| then h[i].freq else 0
  {
    if i < |h| / 2 {
      var m := Least(FreqOf(), h, i);
      if m != i {
        SumOfSwap(h, i, m);
        SumOfDown(Swapped(h, i, m), m);
        SumOfDown(Down(FreqOf(), Swapped(h, i, m), m), i);
      }
    }
  }

  lemma {:induction false} SumOfUp(h: seq<Node>, i: nat)
    requires i < |h|
    ensures SumFreq(Up(FreqOf(), h, i)) == SumFreq(h)
    decreases i
  {
    if i > 1 && h[Parent(i)].freq > h[i].freq {
      SumOfSwap(h, i, Parent(i));
      SumOfUp(Swapped(h, i, Parent(i)), Parent(i));
    }
  }

  lemma SumOfAppend(h: seq<Node>, x: Node)
    ensures SumFreq(h + [x]) == SumFreq(h) + x.freq
  {
    SumUpToSame(h, h + [x], |h|);
  }

  /** The heap invariant of every run; `lo` is 1 once the root has been sifted. */
  ghost predicate HeapInv(size: nat, h: seq<Node>, lo: nat)
    requires lo > 0
  {
    |h| <= size && DistinctIds(h) && OrderedFrom(FreqOf(), h, lo)
  }

  lemma UpdatedIsDistinct(size: nat, h: seq<Node>, k: uint32, v: uint32)
    requires DistinctIds(h)
    ensures DistinctIds(Updated(size, h, k, v))
  {
    var g := Updated(size, h, k, v);
    forall i, j | 0 <= i < j < |g|
      ensures Apart(g, i, j)
    {
      assert j < |h| ==> Apart(h, i, j);
    }
  }

  lemma UpdatedAddsWeight(size: nat, h: seq<Node>, k: uint32, v: uint32)
    requires size > 0 && |h| <= size
    ensures SumFreq(Updated(size, h, k, v)) == SumFreq(h) + v
  {
    var p := Find(h, k);
    if p < |h| {
      SumAt(h, p, h[p].(freq := h[p].freq + v));
    } else if |h| < size {
      SumOfAppend(h, Node(k, v));
    } else {
      SumAt(h, 0, Node(k, h[0].freq + v));
    }
  }

  lemma SettledPermutes(size: nat, h: seq<Node>, k: uint32, g: seq<Node>)
    requires |g| >= |h| && (!Tracked(h, k) && |h| < size ==> |g| > |h|)
    ensures multiset(Settled(size, h, k, g)) == multiset(g)
  {
    if Tracked(h, k) {
      DownPermutes(FreqOf(), g, Find(h, k));
    } else if |h| < size {
      UpPermutes(FreqOf(), g, |h|);
    } else {
      DownPermutes(FreqOf(), g, 0);
    }
  }

  lemma SettledKeepsSum(size: nat, h: seq<Node>, k: uint32, g: seq<Node>)
    requires |g| >= |h| && (!Tracked(h, k) && |h| < size ==> |g| > |h|)
    ensures SumFreq(Settled(size, h, k, g)) == SumFreq(g)
  {
    if Tracked(h, k) {
      SumOfDown(g, Find(h, k));
    } else if |h| < size {
      SumOfUp(g, |h|);
    } else {
      SumOfDown(g, 0);
    }
  }

  /** The frequencies grow by exactly the weight. */
  lemma SavedAddsWeight(size: nat, h: seq<Node>, k: uint32, v: uint32)
    requires size > 0 && |h| <= size
    ensures SumFreq(Saved(size, h, k, v)) == SumFreq(h) + v
  {
    UpdatedAddsWeight(size, h, k, v);
    SettledKeepsSum(size, h, k, Updated(size, h, k, v));
  }

  lemma SavedIsOrdered(size: nat, h: seq<Node>, k: uint32, v: uint32, lo: nat)
    requires size > 0 && |h| <= size && 0 < lo <= 2 && OrderedFrom(FreqOf(), h, lo)
    ensures var h' := Saved(size, h, k, v);
            && OrderedFrom(FreqOf(), h', 2)
            && (|h| == size ==> OrderedFrom(FreqOf(), h', lo))
            && (Replaces(size, h, k) || Find(h, k) == 0 < |h| ==> OrderedFrom(FreqOf(), h', 1))
  {
    var p := Find(h, k);
    if p < |h| {
      BumpKeepsOrder(FreqOf(), h, lo, p, h[p].(freq := h[p].freq + v));
    } else if |h| < size {
      AppendKeepsOrder(FreqOf(), h, Node(k, v));
    } else {
      ReplaceRootOrders(FreqOf(), h, Node(k, h[0].freq + v));
    }
  }

  /**
   One step: the invariant is kept, a root sift makes the order complete, and a full heap
   never loses order again.
   */
  lemma SavedKeepsInv(size: nat, h: seq<Node>, k: uint32, v: uint32, lo: nat)
    requires size > 0 && 0 < lo <= 2 && HeapInv(size, h, lo)
    ensures var h' := Saved(size, h, k, v);
            && HeapInv(size, h', 2)
            && (|h| == size ==> HeapInv(size, h', lo) && |h'| == size)
            && (Replaces(size, h, k) || Find(h, k) == 0 < |h| ==> HeapInv(size, h', 1))
  {
    SavedIsOrdered(size, h, k, v, lo);
    UpdatedIsDistinct(size, h, k, v);
    SettledPermutes(size, h, k, Updated(size, h, k, v));
    ReorderKeepsDistinct(Updated(size, h, k, v), Saved(size, h, k, v));
  }

  // ---------- Whole runs ----------

  /** The heap after the first i weighted packets. */
  function After(size: nat, es: seq<Entry<uint32>>, i: nat): seq<Node>
    requires i <= |es|
  {
    if i == 0 then [] else Saved(size, After(size, es, i - 1), es[i - 1].id, es[i - 1].count)
  }

  /** All heaps of a run, before and after each packet. */
  function Heaps(size: nat, es: seq<Entry<uint32>>): (hs: seq<seq<Node>>)
    ensures |hs| == |es| + 1 && forall i :: 0 <= i <= |es| ==> hs[i] == After(size, es, i)
  {
    seq(|es| + 1, i requires 0 <= i <= |es| => After(size, es, i))
  }

  ghost predicate StepsTo(size: nat, es: seq<Entry<uint32>>, hs: seq<seq<Node>>, i: nat)
    requires i < |es| && |hs| == |es| + 1
  {
    hs[i + 1] == Saved(size, hs[i], es[i].id, es[i].count)
  }

  ghost predicate IsRun(size: nat, es: seq<Entry<uint32>>, hs: seq<seq<Node>>) {
    |hs| == |es| + 1 && hs[0] == [] && forall i :: 0 <= i < |es| ==> StepsTo(size, es, hs, i)
  }

  lemma HeapsIsRun(size: nat, es: seq<Entry<uint32>>)
    ensures IsRun(size, es, Heaps(size, es))
  {
    var hs := Heaps(size, es);
    assert hs[0] == After(size, es, 0);
    forall i | 0 <= i < |es|
      ensures StepsTo(size, es, hs, i)
    {
      assert hs[i + 1] == After(size, es, i + 1) && hs[i] == After(size, es, i);
    }
  }

  function Total(es: seq<Entry<uint32>>, i: nat): nat
    requires i <= |es|
  {
    if i == 0 then 0 else Total(es, i - 1) + es[i - 1].count
  }

  /** The true count of a flow among the first i weighted packets. */
  function TrueCount(f: uint32, es: seq<Entry<uint32>>, i: nat): nat
    requires i <= |es|
  {
    if i == 0 then 0 else TrueCount(f, es, i - 1) + if es[i - 1].id == f then es[i - 1].count else 0
  }

  /** In every run: distinct flows, all edges ordered but possibly root to node 1, frequencies summing to the packets. */
  lemma {:induction false} EveryRun(size: nat, es: seq<Entry<uint32>>, i: nat)
    requires size > 0 && i <= |es|
    ensures HeapInv(size, After(size, es, i), 2)
    ensures SumFreq(After(size, es, i)) == Total(es, i)
  {
    if i > 0 {
      EveryRun(size, es, i - 1);
      SavedKeepsInv(size, After(size, es, i - 1), es[i - 1].id, es[i - 1].count, 2);
      SavedAddsWeight(size, After(size, es, i - 1), es[i - 1].id, es[i - 1].count);
    }
  }

  ghost predicate FullyOrdered(size: nat, h: seq<Node>) {
    |h| == size && HeapInv(size, h, 1)
  }

  lemma StaysOrdered(size: nat, h: seq<Node>, k: uint32, v: uint32)
    requires size > 0 && (FullyOrdered(size, h) || (HeapInv(size, h, 2) && Replaces(size, h, k)))
    ensures FullyOrdered(size, Saved(size, h, k, v))
  {
    SavedKeepsInv(size, h, k, v, if FullyOrdered(size, h) then 1 else 2);
  }

  lemma OrderedStep(size: nat, es: seq<Entry<uint32>>, hs: seq<seq<Node>>, j: nat)
    requires size > 0 && IsRun(size, es, hs) && j < |es|
    requires FullyOrdered(size, hs[j]) || (HeapInv(size, hs[j], 2) && Replaces(size, hs[j], es[j].id))
    ensures FullyOrdered(size, hs[j + 1])
  {
    assert StepsTo(size, es, hs, j);
    StaysOrdered(size, hs[j], es[j].id, es[j].count);
  }

  lemma {:induction false} OrderedFromThenOn(size: nat, es: seq<Entry<uint32>>, hs: seq<seq<Node>>, i: nat, j: nat)
    requires size > 0 && IsRun(size, es, hs) && i < j <= |es| && HeapInv(size, hs[i], 2) && Replaces(size, hs[i], es[i].id)
    ensures FullyOrdered(size, hs[j])
    decreases j
  {
    if j > i + 1 {
      OrderedFromThenOn(size, es, hs, i, j - 1);
    }
    OrderedStep(size, es, hs, j - 1);
  }

  lemma OrderedEverAfter(size: nat, es: seq<Entry<uint32>>, i: nat, j: nat)
    requires size > 0 && i < j <= |es| && Replaces(size, After(size, es, i), es[i].id)
    ensures FullyOrdered(size, After(size, es, j))
  {
    EveryRun(size, es, i);
    HeapsIsRun(size, es);
    OrderedFromThenOn(size, es, Heaps(size, es), i, j);
  }

  /** After a replacement the heap is fully ordered for the rest of the run, so every later replacement hits a true minimum. */
  lemma LaterReplacementsHitMinimum(size: nat, es: seq<Entry<uint32>>, i: nat, j: nat)
    requires size > 0 && i < j <= |es| && Replaces(size, After(size, es, i), es[i].id)
    ensures |After(size, es, j)| == size && HeapInv(size, After(size, es, j), 1)
    ensures RootLeast(After(size, es, j))
  {
    OrderedEverAfter(size, es, i, j);
    OrderedRootIsLeast(After(size, es, j));
  }

  lemma OrderedRootIsLeast(h: seq<Node>)
    requires OrderedFrom(FreqOf(), h, 1)
    ensures RootLeast(h)
  {
    forall c | 0 <= c < |h|
      ensures h[0].freq <= h[c].freq
    {
      RootIsLeast(FreqOf(), h, c);
    }
  }

  /** A replacement hits a true minimum exactly when the root is no larger than node 1. */
  lemma ReplacementHitsMinimumExactlyWhen(size: nat, es: seq<Entry<uint32>>, i: nat)
    requires size > 0 && i < |es| && Replaces(size, After(size, es, i), es[i].id)
    ensures var h := After(size, es, i);
            RootLeast(h) <==> |h| == 1 || h[0].freq <= h[1].freq
  {
    EveryRun(size, es, i);
    RootIsLeastExactlyWhen(FreqOf(), After(size, es, i));
  }

  // ---------- Count guarantees ----------

  ghost predicate FlowBounded(size: nat, h: seq<Node>, f: uint32, count: nat) {
    if Tracked(h, f) then count <= h[Find(h, f)].freq
    else if |h| < size then count == 0
    else forall c :: 0 <= c < |h| ==> count <= h[c].freq
  }

  /** Reordering nodes changes no flow's bound. */
  lemma BoundIsOrderFree(size: nat, h: seq<Node>, g: seq<Node>, f: uint32, count: nat)
    requires multiset(h) == multiset(g) && DistinctIds(h) && FlowBounded(size, h, f, count)
    ensures FlowBounded(size, g, f, count)
  {
    ReorderKeepsDistinct(h, g);
    AllApart(g);
    SameLength(h, g);
    if Tracked(h, f) {
      var x := h[Find(h, f)];
      assert x in multiset(h);
      var j :| 0 <= j < |g| && g[j] == x;
      assert Find(g, f) == j;
    } else {
      assert !Tracked(g, f) by {
        if Tracked(g, f) {
          SomeTracked(h, g, f);
        }
      }
      forall c | 0 <= c < |g| && |h| >= size
        ensures count <= g[c].freq
      {
        assert g[c] in multiset(h);
        var j :| 0 <= j < |h| && h[j] == g[c];
      }
    }
  }

  lemma SomeTracked(h: seq<Node>, g: seq<Node>, f: uint32)
    requires multiset(h) == multiset(g) && Tracked(g, f)
    ensures Tracked(h, f)
  {
    assert g[Find(g, f)] in multiset(h);
    var j :| 0 <= j < |h| && h[j] == g[Find(g, f)];
    assert Find(h, f) <= j;
  }

  lemma SameLength(h: seq<Node>, g: seq<Node>)
    requires multiset(h) == multiset(g)
    ensures |h| == |g|
  {
    assert |h| == |multiset(h)| == |multiset(g)| == |g|;
  }

  /** Before the sift: the step keeps the bound of every flow, if a replaced root is a minimum. */
  lemma UpdatedKeepsBound(size: nat, h: seq<Node>, k: uint32, v: uint32, f: uint32, count: nat, kcount: nat)
    requires size > 0 && |h| <= size && DistinctIds(h) && (Replaces(size, h, k) ==> RootLeast(h))
    requires FlowBounded(size, h, f, count) && FlowBounded(size, h, k, kcount) && (f == k ==> count == kcount)
    ensures FlowBounded(size, Updated(size, h, k, v), f, if f == k then count + v else count)
  {
    var p, g := Find(h, k), Updated(size, h, k, v);
    AllApart(h);
    if f == k {
      var at := if p < |h| then p else if |h| < size then |h| else 0;
      assert g[at].flowid == k && Find(g, k) == at;
    } else {
      OtherFlowFound(size, h, k, v, f);
    }
  }

  /** Other flows keep their node and frequency, except the one that the root's replacement drops. */
  lemma OtherFlowFound(size: nat, h: seq<Node>, k: uint32, v: uint32, f: uint32)
    requires size > 0 && |h| <= size && DistinctIds(h) && f != k
    ensures var g, q := Updated(size, h, k, v), Find(h, f);
            if q < |h| && !(Replaces(size, h, k) && q == 0) then Find(g, f) == q < |g| && g[q] == h[q] else Find(g, f) == |g|
  {
    var g, q, p := Updated(size, h, k, v), Find(h, f), Find(h, k);
    AllApart(h);
    var q' := Find(g, f);
    if p < |h| {
      assert forall j :: 0 <= j < |h| ==> g[j].flowid == h[j].flowid;
    } else if |h| < size {
      assert g[|h|].flowid == k;
      assert forall j :: 0 <= j < |h| ==> g[j] == h[j];
    } else {
      assert g[0].flowid == k;
      assert forall j :: 1 <= j < |h| ==> g[j] == h[j];
    }
  }

  lemma SavedKeepsBound(size: nat, h: seq<Node>, k: uint32, v: uint32, f: uint32, count: nat, kcount: nat)
    requires size > 0 && HeapInv(size, h, 2) && (Replaces(size, h, k) ==> RootLeast(h))
    requires FlowBounded(size, h, f, count) && FlowBounded(size, h, k, kcount) && (f == k ==> count == kcount)
    ensures FlowBounded(size, Saved(size, h, k, v), f, if f == k then count + v else count)
  {
    UpdatedKeepsBound(size, h, k, v, f, count, kcount);
    UpdatedIsDistinct(size, h, k, v);
    SettledPermutes(size, h, k, Updated(size, h, k, v));
    BoundIsOrderFree(size, Updated(size, h, k, v), Saved(size, h, k, v), f, if f == k then count + v else count);
  }

  /** All replacements among the first i packets hit a minimum. */
  ghost predicate AllMinimal(size: nat, es: seq<Entry<uint32>>, i: nat)
    requires i <= |es|
  {
    forall j :: 0 <= j < i ==> MinimalAt(size, es, j)
  }

  ghost predicate MinimalAt(size: nat, es: seq<Entry<uint32>>, j: nat)
    requires j < |es|
  {
    Replaces(size, After(size, es, j), es[j].id) ==> RootLeast(After(size, es, j))
  }

  /** Flow f after the first i packets: never below its true count while tracked, never above the heap when not. */
  ghost predicate Bounded(size: nat, es: seq<Entry<uint32>>, i: nat, f: uint32)
    requires i <= |es|
  {
    FlowBounded(size, After(size, es, i), f, TrueCount(f, es, i))
  }

  lemma BoundedStep(size: nat, es: seq<Entry<uint32>>, i: nat, f: uint32)
    requires size > 0 && i < |es| && AllMinimal(size, es, i + 1)
    requires Bounded(size, es, i, f) && Bounded(size, es, i, es[i].id)
    ensures Bounded(size, es, i + 1, f)
  {
    var h, e := After(size, es, i), es[i];
    EveryRun(size, es, i);
    assert MinimalAt(size, es, i);
    SavedKeepsBound(size, h, e.id, e.count, f, TrueCount(f, es, i), TrueCount(e.id, es, i));
  }

  /**
   On runs whose replacements all hit a minimum, a tracked flow's frequency is at least its
   true count, and an untracked flow's true count is at most every frequency in a full heap
   and zero before the heap is full.
   */
  lemma {:induction false} NeverUnderestimates(size: nat, es: seq<Entry<uint32>>, i: nat)
    requires size > 0 && i <= |es| && AllMinimal(size, es, i)
    ensures forall f :: Bounded(size, es, i, f)
  {
    if i > 0 {
      NeverUnderestimates(size, es, i - 1);
      forall f
        ensures Bounded(size, es, i, f)
      {
        assert Bounded(size, es, i - 1, f) && Bounded(size, es, i - 1, es[i - 1].id);
        BoundedStep(size, es, i - 1, f);
      }
    }
  }

  // ---------- Exactly when the guarantee holds ----------

  ghost predicate FlowExact(h: seq<Node>, f: uint32, count: nat) {
    count == if Tracked(h, f) then h[Find(h, f)].freq else 0
  }

  lemma ExactIsOrderFree(h: seq<Node>, g: seq<Node>, f: uint32, count: nat)
    requires multiset(h) == multiset(g) && DistinctIds(h) && FlowExact(h, f, count)
    ensures FlowExact(g, f, count)
  {
    ReorderKeepsDistinct(h, g);
    AllApart(g);
    if Tracked(h, f) {
      var x := h[Find(h, f)];
      assert x in multiset(h);
      var j :| 0 <= j < |g| && g[j] == x;
      assert Find(g, f) == j;
    } else if Tracked(g, f) {
      SomeTracked(h, g, f);
    }
  }

  lemma UpdatedKeepsExact(size: nat, h: seq<Node>, k: uint32, v: uint32, f: uint32, count: nat)
    requires size > 0 && |h| <= size && DistinctIds(h) && !Replaces(size, h, k) && FlowExact(h, f, count)
    ensures FlowExact(Updated(size, h, k, v), f, if f == k then count + v else count)
  {
    var p, g := Find(h, k), Updated(size, h, k, v);
    AllApart(h);
    if f == k {
      assert g[p].flowid == k && Find(g, k) == p;
    } else {
      OtherFlowFound(size, h, k, v, f);
    }
  }

  ghost predicate ReplacesAt(size: nat, es: seq<Entry<uint32>>, j: nat)
    requires j < |es|
  {
    Replaces(size, After(size, es, j), es[j].id)
  }

  ghost predicate NoneBefore(size: nat, es: seq<Entry<uint32>>, i: nat)
    requires i <= |es|
  {
    forall j :: 0 <= j < i ==> !ReplacesAt(size, es, j)
  }

  /** Until the first replacement every frequency is the exact count. */
  lemma {:induction false} ExactUntilReplacement(size: nat, es: seq<Entry<uint32>>, i: nat, f: uint32)
    requires size > 0 && i <= |es| && NoneBefore(size, es, i)
    ensures FlowExact(After(size, es, i), f, TrueCount(f, es, i))
  {
    if i > 0 {
      ExactUntilReplacement(size, es, i - 1, f);
      EveryRun(size, es, i - 1);
      assert !ReplacesAt(size, es, i - 1);
      SavedKeepsExact(size, After(size, es, i - 1), es[i - 1].id, es[i - 1].count, f, TrueCount(f, es, i - 1));
    }
  }

  lemma SavedKeepsExact(size: nat, h: seq<Node>, k: uint32, v: uint32, f: uint32, count: nat)
    requires size > 0 && HeapInv(size, h, 2) && !Replaces(size, h, k) && FlowExact(h, f, count)
    ensures FlowExact(Saved(size, h, k, v), f, if f == k then count + v else count)
  {
    UpdatedKeepsExact(size, h, k, v, f, count);
    UpdatedIsDistinct(size, h, k, v);
    SettledPermutes(size, h, k, Updated(size, h, k, v));
    ExactIsOrderFree(Updated(size, h, k, v), Saved(size, h, k, v), f, if f == k then count + v else count);
  }

  /** Replacing a root that is not least drops a flow whose exact count exceeds a frequency that stays. */
  lemma DroppedFlowIsUnbounded(size: nat, h: seq<Node>, k: uint32, v: uint32)
    requires size > 0 && HeapInv(size, h, 2) && Replaces(size, h, k) && !RootLeast(h)
    ensures !FlowBounded(size, Saved(size, h, k, v), h[0].flowid, h[0].freq)
  {
    var f, g, h' := h[0].flowid, Updated(size, h, k, v), Saved(size, h, k, v);
    var c :| 0 <= c < |h| && h[0].freq > h[c].freq;
    assert Find(h, f) == 0;
    assert k != f;
    OtherFlowFound(size, h, k, v, f);
    assert g[c] == h[c] && !FlowBounded(size, g, f, h[0].freq);
    SavedKeepsInv(size, h, k, v, 2);
    SettledPermutes(size, h, k, g);
    if FlowBounded(size, h', f, h[0].freq) {
      BoundIsOrderFree(size, h', g, f, h[0].freq);
    }
  }

  ghost predicate FirstReplacement(size: nat, es: seq<Entry<uint32>>, j: nat)
    requires j < |es|
  {
    ReplacesAt(size, es, j) && NoneBefore(size, es, j)
  }

  lemma MissBreaksBound(size: nat, es: seq<Entry<uint32>>, j: nat)
    requires size > 0 && j < |es| && FirstReplacement(size, es, j) && !RootLeast(After(size, es, j))
    ensures !Bounded(size, es, j + 1, After(size, es, j)[0].flowid)
  {
    var h := After(size, es, j);
    var f := h[0].flowid;
    EveryRun(size, es, j);
    ExactUntilReplacement(size, es, j, f);
    assert Find(h, f) == 0;
    assert Find(h, es[j].id) == |h|;
    DroppedFlowIsUnbounded(size, h, es[j].id, es[j].count);
  }

  lemma {:induction false} SomeFirst(size: nat, es: seq<Entry<uint32>>, j: nat) returns (i: nat)
    requires j < |es| && ReplacesAt(size, es, j)
    ensures i <= j && FirstReplacement(size, es, i)
    decreases j
  {
    if k :| 0 <= k < j && ReplacesAt(size, es, k) {
      i := SomeFirst(size, es, k);
    } else {
      i := j;
    }
  }

  /** At the first replacement, if there is one among the first i packets, the root is no larger than node 1. */
  ghost predicate FirstReplacementIsSafe(size: nat, es: seq<Entry<uint32>>, i: nat)
    requires size > 0 && i <= |es|
  {
    forall j :: 0 <= j < i && FirstReplacement(size, es, j) ==> SafeRoot(After(size, es, j))
  }

  ghost predicate SafeRoot(h: seq<Node>) {
    |h| <= 1 || h[0].freq <= h[1].freq
  }

  lemma SafeMeansMinimal(size: nat, es: seq<Entry<uint32>>, i: nat)
    requires size > 0 && i <= |es| && FirstReplacementIsSafe(size, es, i)
    ensures AllMinimal(size, es, i)
  {
    forall j | 0 <= j < i
      ensures MinimalAt(size, es, j)
    {
      if ReplacesAt(size, es, j) {
        var k := SomeFirst(size, es, j);
        if k == j {
          assert SafeRoot(After(size, es, j));
          ReplacementHitsMinimumExactlyWhen(size, es, j);
        } else {
          LaterReplacementsHitMinimum(size, es, k, j);
        }
      }
    }
  }

  /**
   The count guarantee holds throughout a run if and only if its first replacement finds the
   root no larger than node 1.
   */
  lemma GuaranteeHoldsExactlyWhen(size: nat, es: seq<Entry<uint32>>, i: nat)
    requires size > 0 && i <= |es|
    ensures (forall j, f: uint32 :: 0 <= j <= i ==> Bounded(size, es, j, f)) <==> FirstReplacementIsSafe(size, es, i)
  {
    if FirstReplacementIsSafe(size, es, i) {
      SafeMeansMinimal(size, es, i);
      forall j, f: uint32 | 0 <= j <= i
        ensures Bounded(size, es, j, f)
      {
        NeverUnderestimates(size, es, j);
      }
    } else {
      var j :| 0 <= j < i && FirstReplacement(size, es, j) && !SafeRoot(After(size, es, j));
      ReplacementHitsMinimumExactlyWhen(size, es, j);
      MissBreaksBound(size, es, j);
    }
  }

  lemma {:induction false} SumAtLeast(h: seq<Node>, m: nat, n: nat)
    requires n <= |h| && forall c :: 0 <= c < |h| ==> m <= h[c].freq
    ensures m * n <= SumUpTo(h, n)
  {
    if n > 0 {
      SumAtLeast(h, m, n - 1);
      assert m * n == m * (n - 1) + m;
    }
  }

  /** A full heap with a minimal root: root frequency times size is at most the number of packets. */
  lemma RootTimesSizeBelowTotal(size: nat, es: seq<Entry<uint32>>, i: nat)
    requires size > 0 && i <= |es|
    requires var h := After(size, es, i); |h| == size && RootLeast(h)
    ensures After(size, es, i)[0].freq * size <= Total(es, i)
  {
    EveryRun(size, es, i);
    var h := After(size, es, i);
    SumAtLeast(h, h[0].freq, size);
  }

  /**
   The guarantee does fail on some runs: with two nodes, packets a, a, b leave the larger
   count at the root, so a third flow c displaces a, whose true count then exceeds the root.
   */
  lemma FirstReplacementMayMissMinimum()
    ensures var es := [Entry<uint32>.Entry(1, 1), Entry<uint32>.Entry(1, 1), Entry<uint32>.Entry(2, 1), Entry<uint32>.Entry(3, 1)];
            && After(2, es, 3) == [Node(1, 2), Node(2, 1)]
            && After(2, es, 4) == [Node(2, 1), Node(3, 3)]
            && !Bounded(2, es, 4, 1)
  {
    var es := [Entry<uint32>.Entry(1, 1), Entry<uint32>.Entry(1, 1), Entry<uint32>.Entry(2, 1), Entry<uint32>.Entry(3, 1)];
    assert After(2, es, 0) == [];
    assert After(2, es, 1) == [Node(1, 1)];
    assert After(2, es, 2) == [Node(1, 2)];
    assert After(2, es, 3) == [Node(1, 2), Node(2, 1)];
    assert Updated(2, After(2, es, 3), 3, 1) == [Node(3, 3), Node(2, 1)];
    assert After(2, es, 4) == [Node(2, 1), Node(3, 3)];
    assert TrueCount(1, es, 2) == 2;
    assert TrueCount(1, es, 4) == 2;
  }

  lemma {:induction false} FreqBelowSum(h: seq<Node>, i: nat, n: nat)
    requires i < n <= |h|
    ensures h[i].freq <= SumUpTo(h, n)
  {
    if i < n - 1 {
      FreqBelowSum(h, i, n - 1);
    }
  }

  /** No frequency exceeds the packets processed, so the 32-bit fields never wrap in a run below 2^32 packets. */
  lemma FrequenciesFit(size: nat, es: seq<Entry<uint32>>, i: nat, p: nat)
    requires size > 0 && i <= |es| && p < |After(size, es, i)|
    ensures After(size, es, i)[p].freq <= Total(es, i)
  {
    EveryRun(size, es, i);
    FreqBelowSum(After(size, es, i), p, |After(size, es, i)|);
  }

  // ---------- A flushed unused lane: flow 0 with weight 0 ----------

  /** Every flow other than 0 that is tracked stays tracked. */
  ghost predicate ForgetsNone(h: seq<Node>, g: seq<Node>) {
    forall f: uint32 :: f != 0 && Tracked(h, f) ==> Tracked(g, f)
  }

  lemma UpdatedForgets(size: nat, h: seq<Node>, f: uint32)
    requires size > 0 && HeapInv(size, h, 2) && f != 0 && Tracked(h, f)
    ensures Tracked(Updated(size, h, 0, 0), f) <==> !(Replaces(size, h, 0) && f == h[0].flowid)
  {
    OtherFlowFound(size, h, 0, 0, f);
    AllApart(h);
    if f == h[0].flowid {
      assert Find(h, f) == 0;
    }
  }

  /** The pair (0, 0) forgets a flow if and only if the heap is full and does not track flow 0. */
  lemma PhantomForgetsExactlyWhen(size: nat, h: seq<Node>)
    requires size > 0 && HeapInv(size, h, 2)
    ensures ForgetsNone(h, Saved(size, h, 0, 0)) <==> Tracked(h, 0) || |h| < size
    ensures Tracked(Saved(size, h, 0, 0), 0)
  {
    var g, h' := Updated(size, h, 0, 0), Saved(size, h, 0, 0);
    SettledPermutes(size, h, 0, g);
    forall f: uint32
      ensures Tracked(h', f) <==> Tracked(g, f)
    {
      if Tracked(g, f) {
        SomeTracked(h', g, f);
      }
      if Tracked(h', f) {
        SomeTracked(g, h', f);
      }
    }
    forall f: uint32 | f != 0 && Tracked(h, f)
      ensures Tracked(g, f) <==> !(Replaces(size, h, 0) && f == h[0].flowid)
    {
      UpdatedForgets(size, h, f);
    }
    var at := if Tracked(h, 0) then Find(h, 0) else if |h| < size then |h| else 0;
    assert g[at].flowid == 0 && Find(g, 0) <= at;
    if Replaces(size, h, 0) {
      var f := h[0].flowid;
      assert f != 0 && Find(h, f) == 0 && Tracked(h, f);
      assert !Tracked(h', f);
    } else {
      assert ForgetsNone(h, h');
    }
  }

  /** On a run of flows other than 0 the heap never tracks flow 0. */
  lemma {:induction false} ZeroIsNeverTracked(size: nat, es: seq<Entry<uint32>>, i: nat)
    requires size > 0 && i <= |es| && forall j :: 0 <= j < i ==> es[j].id != 0
    ensures !Tracked(After(size, es, i), 0)
  {
    if i > 0 {
      var h, e := After(size, es, i - 1), es[i - 1];
      var g := Updated(size, h, e.id, e.count);
      ZeroIsNeverTracked(size, es, i - 1);
      EveryRun(size, es, i - 1);
      OtherFlowFound(size, h, e.id, e.count, 0);
      SettledPermutes(size, h, e.id, g);
      if Tracked(After(size, es, i), 0) {
        SomeTracked(g, After(size, es, i), 0);
      }
    }
  }

  // ---------- Which flows are tracked ----------

  /** The flows of the first n nodes. */
  function FlowIds(h: seq<Node>, n: nat): set<uint32>
    requires n <= |h|
  {
    if n == 0 then {} else FlowIds(h, n - 1) + {h[n - 1].flowid}
  }

  lemma {:induction false} InFlowIds(h: seq<Node>, n: nat, f: uint32)
    requires n <= |h|
    ensures f in FlowIds(h, n) <==> exists i :: 0 <= i < n && h[i].flowid == f
  {
    if n > 0 {
      InFlowIds(h, n - 1, f);
    }
  }

  lemma TrackedIsId(h: seq<Node>, f: uint32)
    ensures Tracked(h, f) <==> f in FlowIds(h, |h|)
  {
    InFlowIds(h, |h|, f);
  }

  lemma {:induction false} IdsAreAsManyAsNodes(h: seq<Node>, n: nat)
    requires n <= |h| && DistinctIds(h)
    ensures |FlowIds(h, n)| == n
  {
    if n > 0 {
      IdsAreAsManyAsNodes(h, n - 1);
      InFlowIds(h, n - 1, h[n - 1].flowid);
      AllApart(h);
    }
  }

  /** One step enters its flow, and drops at most the root's. */
  lemma TrackedAfter(size: nat, h: seq<Node>, k: uint32, v: uint32, f: uint32)
    requires size > 0 && HeapInv(size, h, 2)
    ensures Tracked(Saved(size, h, k, v), f) <==> f == k || (Tracked(h, f) && !(Replaces(size, h, k) && f == h[0].flowid))
  {
    var g, h' := Updated(size, h, k, v), Saved(size, h, k, v);
    SettledPermutes(size, h, k, g);
    assert Tracked(h', f) <==> Tracked(g, f) by {
      if Tracked(g, f) {
        SomeTracked(h', g, f);
      }
      if Tracked(h', f) {
        SomeTracked(g, h', f);
      }
    }
    AllApart(h);
    if f == k {
      var at := if Tracked(h, k) then Find(h, k) else if |h| < size then |h| else 0;
      assert g[at].flowid == k && Find(g, k) <= at;
    } else {
      OtherFlowFound(size, h, k, v, f);
    }
  }

  lemma SavedIds(size: nat, h: seq<Node>, k: uint32, v: uint32)
    requires size > 0 && HeapInv(size, h, 2) && !Replaces(size, h, k)
    ensures var h' := Saved(size, h, k, v); FlowIds(h', |h'|) == FlowIds(h, |h|) + {k}
  {
    var h' := Saved(size, h, k, v);
    forall f: uint32
      ensures f in FlowIds(h', |h'|) <==> f in FlowIds(h, |h|) + {k}
    {
      TrackedIsId(h', f);
      TrackedIsId(h, f);
      TrackedAfter(size, h, k, v, f);
    }
  }

  /** The flows of the first i weighted packets. */
  function SeenIds(es: seq<Entry<uint32>>, i: nat): set<uint32>
    requires i <= |es|
  {
    if i == 0 then {} else SeenIds(es, i - 1) + {es[i - 1].id}
  }

  lemma SubsetSize(a: set<uint32>, b: set<uint32>)
    requires a <= b
    ensures |a| <= |b| && (|a| == |b| ==> a == b)
  {
    assert b == a + (b - a);
  }

  lemma SavedIdsBelow(size: nat, h: seq<Node>, k: uint32, v: uint32)
    requires size > 0 && HeapInv(size, h, 2)
    ensures var h' := Saved(size, h, k, v); FlowIds(h', |h'|) <= FlowIds(h, |h|) + {k}
  {
    var h' := Saved(size, h, k, v);
    forall f: uint32 | f in FlowIds(h', |h'|)
      ensures f in FlowIds(h, |h|) + {k}
    {
      TrackedIsId(h', f);
      TrackedIsId(h, f);
      TrackedAfter(size, h, k, v, f);
    }
  }

  lemma {:induction false} TrackedAreSeen(size: nat, es: seq<Entry<uint32>>, i: nat)
    requires size > 0 && i <= |es|
    ensures var h := After(size, es, i); FlowIds(h, |h|) <= SeenIds(es, i)
  {
    if i > 0 {
      TrackedAreSeen(size, es, i - 1);
      EveryRun(size, es, i - 1);
      SavedIdsBelow(size, After(size, es, i - 1), es[i - 1].id, es[i - 1].count);
    }
  }

  /** The heap has one node for each flow seen until it is full, and then stays full. */
  ghost predicate SizeRight(size: nat, h: seq<Node>, seen: set<uint32>) {
    if |seen| <= size then FlowIds(h, |h|) == seen && |h| == |seen| else |h| == size
  }

  lemma HeapSizeStep(size: nat, h: seq<Node>, k: uint32, v: uint32, seen: set<uint32>)
    requires size > 0 && HeapInv(size, h, 2) && SizeRight(size, h, seen)
    ensures SizeRight(size, Saved(size, h, k, v), seen + {k})
  {
    var h', seen' := Saved(size, h, k, v), seen + {k};
    TrackedIsId(h, k);
    SavedKeepsInv(size, h, k, v, 2);
    SubsetSize(seen, seen');
    if |seen'| <= size {
      SavedIds(size, h, k, v);
      IdsAreAsManyAsNodes(h', |h'|);
    }
  }

  lemma {:induction false} HeapSize(size: nat, es: seq<Entry<uint32>>, i: nat)
    requires size > 0 && i <= |es|
    ensures SizeRight(size, After(size, es, i), SeenIds(es, i))
  {
    if i > 0 {
      HeapSize(size, es, i - 1);
      EveryRun(size, es, i - 1);
      HeapSizeStep(size, After(size, es, i - 1), es[i - 1].id, es[i - 1].count, SeenIds(es, i - 1));
    }
  }

  /** All flows seen are tracked if and only if there are no more of them than nodes. */
  lemma AllTrackedExactlyWhen(size: nat, es: seq<Entry<uint32>>, i: nat)
    requires size > 0 && i <= |es|
    ensures (forall f :: f in SeenIds(es, i) ==> Tracked(After(size, es, i), f)) <==> |SeenIds(es, i)| <= size
  {
    var h, seen := After(size, es, i), SeenIds(es, i);
    HeapSize(size, es, i);
    EveryRun(size, es, i);
    IdsAreAsManyAsNodes(h, |h|);
    forall f: uint32
      ensures Tracked(h, f) <==> f in FlowIds(h, |h|)
    {
      TrackedIsId(h, f);
    }
    if forall f :: f in seen ==> Tracked(h, f) {
      assert seen <= FlowIds(h, |h|);
      SubsetSize(seen, FlowIds(h, |h|));
    }
  }

  lemma AllButOneOfSet(ids: set<uint32>, others: set<uint32>, z: uint32, size: nat)
    requires z !in others && ids <= others + {z}
    requires if |others| < size then ids == others + {z} else |ids| == size
    ensures others <= ids <==> |others| < size || (|others| == size && z !in ids)
  {
    if others <= ids {
      SubsetSize(others, ids);
    } else if |others| == size && z !in ids {
      assert ids <= others;
      SubsetSize(ids, others);
    }
  }

  lemma TrackedOf(h: seq<Node>, flows: set<uint32>)
    ensures (forall f :: f in flows ==> Tracked(h, f)) <==> flows <= FlowIds(h, |h|)
  {
    forall f: uint32
      ensures Tracked(h, f) <==> f in FlowIds(h, |h|)
    {
      TrackedIsId(h, f);
    }
  }

  /** All flows seen but one are tracked if and only if they are fewer than the nodes, or as many and the one is not tracked. */
  lemma AllButOneTrackedExactlyWhen(size: nat, es: seq<Entry<uint32>>, i: nat, z: uint32)
    requires size > 0 && i <= |es| && z in SeenIds(es, i)
    ensures var h, others := After(size, es, i), SeenIds(es, i) - {z};
            (forall f :: f in others ==> Tracked(h, f)) <==> |others| < size || (|others| == size && !Tracked(h, z))
  {
    var h, others := After(size, es, i), SeenIds(es, i) - {z};
    assert SeenIds(es, i) == others + {z};
    HeapSize(size, es, i);
    EveryRun(size, es, i);
    TrackedAreSeen(size, es, i);
    IdsAreAsManyAsNodes(h, |h|);
    AllButOneOfSet(FlowIds(h, |h|), others, z, size);
    TrackedIsId(h, z);
    TrackedOf(h, others);
  }

  /** The flow of the latest packet is tracked. */
  lemma LatestIsTracked(size: nat, es: seq<Entry<uint32>>, i: nat)
    requires size > 0 && 0 < i <= |es|
    ensures Tracked(After(size, es, i), es[i - 1].id)
  {
    EveryRun(size, es, i - 1);
    TrackedAfter(size, After(size, es, i - 1), es[i - 1].id, es[i - 1].count, es[i - 1].id);
  }

  // ---------- The bound from above ----------

  /** A tracked flow's frequency exceeds a count by at most any frequency of the full heap, and not at all before it is full. */
  ghost predicate OverBounded(size: nat, h: seq<Node>, f: uint32, count: nat) {
    Tracked(h, f) ==>
      if |h| < size then h[Find(h, f)].freq <= count
      else forall c :: 0 <= c < |h| ==> h[Find(h, f)].freq <= count + h[c].freq
  }

  lemma OverBoundIsOrderFree(size: nat, h: seq<Node>, g: seq<Node>, f: uint32, count: nat)
    requires multiset(h) == multiset(g) && DistinctIds(h) && OverBounded(size, h, f, count)
    ensures OverBounded(size, g, f, count)
  {
    SameLength(h, g);
    if Tracked(g, f) {
      SomeTracked(h, g, f);
      var x := g[Find(g, f)];
      assert x in multiset(h);
      var j :| 0 <= j < |h| && h[j] == x;
      AllApart(h);
      assert Find(h, f) == j;
      forall c | 0 <= c < |g| && |g| >= size
        ensures x.freq <= count + g[c].freq
      {
        assert g[c] in multiset(h);
        var i :| 0 <= i < |h| && h[i] == g[c];
      }
    }
  }

  lemma UpdatedKeepsOverBound(size: nat, h: seq<Node>, k: uint32, v: uint32, f: uint32, count: nat)
    requires size > 0 && |h| <= size && DistinctIds(h) && (Replaces(size, h, k) ==> RootLeast(h)) && OverBounded(size, h, f, count)
    ensures OverBounded(size, Updated(size, h, k, v), f, if f == k then count + v else count)
  {
    var p, g := Find(h, k), Updated(size, h, k, v);
    AllApart(h);
    if f == k {
      var at := if p < |h| then p else if |h| < size then |h| else 0;
      assert g[at].flowid == k && Find(g, k) == at;
    } else {
      OtherFlowFound(size, h, k, v, f);
    }
  }

  lemma SavedKeepsOverBound(size: nat, h: seq<Node>, k: uint32, v: uint32, f: uint32, count: nat)
    requires size > 0 && HeapInv(size, h, 2) && (Replaces(size, h, k) ==> RootLeast(h)) && OverBounded(size, h, f, count)
    ensures OverBounded(size, Saved(size, h, k, v), f, if f == k then count + v else count)
  {
    UpdatedKeepsOverBound(size, h, k, v, f, count);
    UpdatedIsDistinct(size, h, k, v);
    SettledPermutes(size, h, k, Updated(size, h, k, v));
    OverBoundIsOrderFree(size, Updated(size, h, k, v), Saved(size, h, k, v), f, if f == k then count + v else count);
  }

  ghost predicate MinimalIn(size: nat, es: seq<Entry<uint32>>, hs: seq<seq<Node>>, i: nat)
    requires i < |es| && |hs| == |es| + 1
  {
    HeapInv(size, hs[i], 2) && (Replaces(size, hs[i], es[i].id) ==> RootLeast(hs[i]))
  }

  /** The heaps of a run whose first n replacements hit a minimum. */
  ghost predicate MinimalRun(size: nat, es: seq<Entry<uint32>>, hs: seq<seq<Node>>, n: nat) {
    n <= |es| && IsRun(size, es, hs) && forall i :: 0 <= i < n ==> MinimalIn(size, es, hs, i)
  }

  lemma OverBoundStep(size: nat, es: seq<Entry<uint32>>, hs: seq<seq<Node>>, n: nat, i: nat, f: uint32)
    requires size > 0 && MinimalRun(size, es, hs, n) && i < n && OverBounded(size, hs[i], f, TrueCount(f, es, i))
    ensures OverBounded(size, hs[i + 1], f, TrueCount(f, es, i + 1))
  {
    assert StepsTo(size, es, hs, i) && MinimalIn(size, es, hs, i);
    SavedKeepsOverBound(size, hs[i], es[i].id, es[i].count, f, TrueCount(f, es, i));
  }

  lemma {:induction false} OverBoundRun(size: nat, es: seq<Entry<uint32>>, hs: seq<seq<Node>>, n: nat, i: nat, f: uint32)
    requires size > 0 && MinimalRun(size, es, hs, n) && i <= n
    ensures OverBounded(size, hs[i], f, TrueCount(f, es, i))
  {
    if i > 0 {
      OverBoundRun(size, es, hs, n, i - 1, f);
      OverBoundStep(size, es, hs, n, i - 1, f);
    }
  }

  lemma MinimalHeaps(size: nat, es: seq<Entry<uint32>>, n: nat)
    requires size > 0 && n <= |es| && AllMinimal(size, es, n)
    ensures MinimalRun(size, es, Heaps(size, es), n)
  {
    HeapsIsRun(size, es);
    var hs := Heaps(size, es);
    forall i | 0 <= i < n
      ensures MinimalIn(size, es, hs, i)
    {
      EveryRun(size, es, i);
      assert MinimalAt(size, es, i) && hs[i] == After(size, es, i);
    }
  }

  /** On runs whose replacements all hit a minimum, no frequency exceeds the true count by more than the least frequency of a full heap. */
  lemma OverestimateIsBounded(size: nat, es: seq<Entry<uint32>>, i: nat, f: uint32)
    requires size > 0 && i <= |es| && AllMinimal(size, es, i)
    ensures OverBounded(size, After(size, es, i), f, TrueCount(f, es, i))
  {
    MinimalHeaps(size, es, i);
    OverBoundRun(size, es, Heaps(size, es), i, i, f);
  }
}
