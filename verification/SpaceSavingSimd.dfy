/** Space-Saving behind the Agg-Evict cache, with 32-bit frequencies. */
module SpaceSavingSimd {
  import opened Machine
  import opened SimdMatch
  import opened AggCache
  import opened AggEvict
  import opened MinHeap
  import opened FlowCounts
  import opened SpaceSaving

  /** v packets of flow k, with frequencies modulo 2^32. */
  function UpdatedWords(size: nat, h: seq<Node>, k: uint32, v: uint32): seq<Node> {
    var p := Find(h, k);
    if p < |h| then h[p := h[p].(freq := (h[p].freq + v) % WORD)]
    else if |h| < size then h + [Node(k, v)]
    else if |h| > 0 then h[0 := Node(k, (h[0].freq + v) % WORD)]
    else h
  }

  function SavedWords(size: nat, h: seq<Node>, k: uint32, v: uint32): seq<Node> {
    Settled(size, h, k, UpdatedWords(size, h, k, v))
  }

  function SsUpd(size: nat): (seq<Node>, uint32, uint32) -> seq<Node> {
    (h: seq<Node>, k: uint32, v: uint32) => SavedWords(size, h, k, v)
  }

  // ---------- Nothing wraps below 2^32 packets ----------

  lemma UpdatedWordsAreNumbers(size: nat, h: seq<Node>, k: uint32, v: uint32)
    requires SumFreq(h) + v < WORD
    ensures UpdatedWords(size, h, k, v) == Updated(size, h, k, v)
  {
    forall p | 0 <= p < |h|
      ensures (h[p].freq + v) % WORD == h[p].freq + v
    {
      FreqBelowSum(h, p, |h|);
    }
  }

  lemma WordsAreNumbers(size: nat, h: seq<Node>, k: uint32, v: uint32)
    requires SumFreq(h) + v < WORD
    ensures SavedWords(size, h, k, v) == Saved(size, h, k, v)
  {
    UpdatedWordsAreNumbers(size, h, k, v);
  }

  lemma {:induction false} TotalIsTotalOf(es: seq<Entry<uint32>>, i: nat)
    requires i <= |es|
    ensures Total(es, i) == TotalOf(es[..i])
  {
    if i > 0 {
      TotalIsTotalOf(es, i - 1);
      assert es[..i] == es[..i - 1] + [es[i - 1]];
      TotalOfConcat(es[..i - 1], [es[i - 1]]);
      TotalOfOne(es[i - 1]);
    }
  }

  lemma {:induction false} AfterPrefix(size: nat, es: seq<Entry<uint32>>, e: Entry<uint32>, i: nat)
    requires i <= |es|
    ensures After(size, es + [e], i) == After(size, es, i)
  {
    if i > 0 {
      AfterPrefix(size, es, e, i - 1);
    }
  }

  /** The 32-bit heap is the heap on numbers for every sequence of pairs whose weights stay below 2^32. */
  lemma {:induction false} DrainIsAfter(size: nat, es: seq<Entry<uint32>>)
    requires size > 0 && TotalOf(es) < WORD
    ensures Drain(SsUpd(size), [], es) == After(size, es, |es|)
    decreases |es|
  {
    if es != [] {
      var n := |es| - 1;
      var pre, e := es[..n], es[n];
      assert es == pre + [e];
      TotalOfConcat(pre, [e]);
      TotalOfOne(e);
      DrainIsAfter(size, pre);
      DrainConcat(SsUpd(size), [], pre, [e]);
      var h := After(size, pre, n);
      assert Drain(SsUpd(size), SavedWords(size, h, e.id, e.count), []) == SavedWords(size, h, e.id, e.count);
      EveryRun(size, pre, n);
      TotalIsTotalOf(pre, n);
      assert pre[..n] == pre;
      WordsAreNumbers(size, h, e.id, e.count);
      AfterPrefix(size, pre, e, n);
    }
  }

  // ---------- Behind the cache ----------

  lemma {:induction false} TrueCountIsCountOf(f: uint32, es: seq<Entry<uint32>>, i: nat)
    requires i <= |es|
    ensures TrueCount(f, es, i) == CountOf(f, es[..i])
  {
    if i > 0 {
      TrueCountIsCountOf(f, es, i - 1);
      assert es[..i] == es[..i - 1] + [es[i - 1]];
      CountOfConcat(f, es[..i - 1], [es[i - 1]]);
      CountOfOne(f, es[i - 1]);
    }
  }

  /** The cache and the pairs evicted while a stream passes through it. */
  function Logged(policy: Policy, rows: nat, stream: seq<uint32>): System<uint32, seq<Entry<uint32>>>
    requires rows > 0
  {
    AggRun(LogUpd(), policy, SelfKey(), LogStart<uint32>(rows, 0), stream)
  }

  function Evicted(policy: Policy, rows: nat, stream: seq<uint32>): seq<Entry<uint32>>
    requires rows > 0
  {
    Logged(policy, rows, stream).sketch
  }

  function CachedSs(size: nat, policy: Policy, rows: nat, stream: seq<uint32>): System<uint32, seq<Node>>
    requires rows > 0
  {
    AggRun(SsUpd(size), policy, SelfKey(), System(EmptyCache<uint32>(rows, 0), []), stream)
  }

  ghost predicate NonZero(stream: seq<uint32>) {
    forall i :: 0 <= i < |stream| ==> stream[i] != 0
  }

  /** Space-Saving behind the cache is Space-Saving on the evicted pairs, and nothing wraps on streams below 2^32 packets. */
  lemma HeapSeesEvictedPairs(size: nat, policy: Policy, rows: nat, stream: seq<uint32>)
    requires size > 0 && rows > 0 && |stream| < WORD && NonZero(stream)
    ensures var log, st := Evicted(policy, rows, stream), CachedSs(size, policy, rows, stream);
            && st.cache == Logged(policy, rows, stream).cache
            && TotalOf(log) + TotalOf(Pairs(st.cache.buckets)) == |stream|
            && st.sketch == After(size, log, |log|)
  {
    var log := Evicted(policy, rows, stream);
    RunIsDrainedLog(SsUpd(size), policy, SelfKey(), 0, rows, [], stream);
    TotalsAreExact(policy, SelfKey(), 0, rows, stream);
    DrainIsAfter(size, log);
  }

  /**
   Behind the cache, on streams below 2^32 packets whose first replacement is safe: a
   flow's frequency in the heap, or any frequency of a full heap if the flow is not in it,
   plus its cached count is at least its number of packets; before the heap is full the
   cached count of an untracked flow is exactly its number of packets.
   */
  lemma CachedNeverUnderestimates(size: nat, policy: Policy, rows: nat, stream: seq<uint32>, f: uint32)
    requires size > 0 && rows > 0 && |stream| < WORD && NonZero(stream)
    requires var log := Evicted(policy, rows, stream); FirstReplacementIsSafe(size, log, |log|)
    ensures var st := CachedSs(size, policy, rows, stream);
            var cached := CountOf(f, Pairs(st.cache.buckets));
            Occurrences(f, stream) >= cached && FlowBounded(size, st.sketch, f, Occurrences(f, stream) - cached)
  {
    var log := Evicted(policy, rows, stream);
    HeapSeesEvictedPairs(size, policy, rows, stream);
    CountsAreExact(policy, SelfKey(), 0, rows, stream);
    assert Exact(Logged(policy, rows, stream), stream, f);
    SafeMeansMinimal(size, log, |log|);
    NeverUnderestimates(size, log, |log|);
    assert Bounded(size, log, |log|, f);
    TrueCountIsCountOf(f, log, |log|);
    assert log[..|log|] == log;
  }

  // ---------- The heap in place ----------

  class SpaceSavingSimd {
    const simd: Simd<uint32>
    const size: nat
    const nodes: array<Node>
    var num: nat

    ghost predicate Valid()
      reads this, simd, simd.Repr
    {
      simd.Valid() && this !in simd.Repr && (nodes as object) !in simd.Repr && HeapShape()
    }

    ghost predicate HeapShape()
      reads this
    {
      num <= size <= nodes.Length && size > 0
    }

    /** The live part of the heap. */
    ghost function H(): (h: seq<Node>)
      requires HeapShape()
      reads this, nodes
      ensures |h| == num
    {
      nodes[..num]
    }

    ghost function View(): (st: System<uint32, seq<Node>>)
      requires Valid()
      reads this, nodes, simd, simd.Repr
      ensures Shape(st.cache)
    {
      System(simd.View(), H())
    }

    constructor (policy: Policy, rows: nat, size: nat)
      requires rows > 0 && size > 0
      ensures Valid() && fresh(simd.Repr) && fresh(nodes) && simd.policy == policy && this.size == size
      ensures View() == System(EmptyCache<uint32>(rows, 0), [])
    {
      simd := new Simd<uint32>(policy, rows, 0);
      this.size, num := size, 0;
      nodes := new Node[size + 1](_ => Node(0, 0));
      new;
      assert simd.View() == EmptyCache<uint32>(rows, 0);
    }

    /** The search loop: the first node of the flow, or -1. */
    method FindInHeap(key: uint32) returns (r: int)
      requires HeapShape()
      ensures r == if Tracked(H(), key) then Find(H(), key) else -1
    {
      for i := 0 to num
        invariant FindFrom(H(), key, i) == Find(H(), key)
      {
        if nodes[i].flowid == key {
          return i;
        }
      }
      return -1;
    }

    method SwapNodes(i: nat, j: nat)
      requires HeapShape() && i < num && j < num && i != j
      modifies nodes
      ensures H() == Swapped(old(H()), i, j)
    {
      var t := nodes[i];
      nodes[i] := nodes[j];
      nodes[j] := t;
    }

    method LeastOf(i: nat) returns (least: nat)
      requires HeapShape() && i < num
      ensures least == Least(FreqOf(), H(), i)
    {
      var l, r := 2 * i + 1, 2 * i + 2;
      least := i;
      if l < num && nodes[l].freq < nodes[least].freq {
        least := l;
      }
      if r < num && nodes[r].freq < nodes[least].freq {
        least := r;
      }
    }

    /** One turn of the sift-down loop at node i, with its recursive call. */
    method SiftTurn(i: nat) returns (moved: bool)
      requires HeapShape() && i < num / 2
      modifies nodes
      ensures Down(FreqOf(), H(), i) == Down(FreqOf(), old(H()), i)
      ensures moved ==> H()[i].freq < old(H())[i].freq
      ensures !moved ==> H() == Down(FreqOf(), H(), i)
      decreases num - i, 0
    {
      ghost var h := H();
      var least := LeastOf(i);
      moved := least != i;
      if moved {
        DownTurn(FreqOf(), h, i);
        SwapNodes(i, least);
        AdjustDown(least);
      }
    }

    /** The sift-down: recursive, and then once more around its own loop; it ends because node i's frequency falls. */
    method AdjustDown(i: nat)
      requires HeapShape()
      modifies nodes
      ensures H() == Down(FreqOf(), old(H()), i)
      decreases num - i, 1
    {
      ghost var h0 := H();
      while i < num / 2
        invariant Down(FreqOf(), H(), i) == Down(FreqOf(), h0, i)
        decreases if i < num then H()[i].freq else 0
      {
        var moved := SiftTurn(i);
        if !moved {
          break;
        }
      }
    }

    /** The sift-up; it stops at index 1. */
    method AdjustUp(k: nat)
      requires HeapShape() && k < num
      modifies nodes
      ensures H() == Up(FreqOf(), old(H()), k)
    {
      ghost var h0 := H();
      var i := k;
      while i > 1
        invariant 0 <= i < num && Up(FreqOf(), H(), i) == Up(FreqOf(), h0, k)
      {
        var parent := (i - 1) / 2;
        if nodes[parent].freq <= nodes[i].freq {
          break;
        }
        SwapNodes(i, parent);
        i := parent;
      }
    }

    /** One weighted packet into the heap. */
    method IncSs(key: uint32, val: uint32)
      requires HeapShape()
      modifies this`num, nodes
      ensures HeapShape() && H() == SavedWords(size, old(H()), key, val)
    {
      ghost var h := H();
      var ret := FindInHeap(key);
      if ret != -1 {
        nodes[ret] := nodes[ret].(freq := (nodes[ret].freq + val) % WORD);
        assert H() == UpdatedWords(size, h, key, val);
        AdjustDown(ret);
      } else if num < size {
        nodes[num] := Node(key, val);
        num := num + 1;
        assert H() == UpdatedWords(size, h, key, val);
        AdjustUp(num - 1);
      } else {
        nodes[0] := Node(key, (nodes[0].freq + val) % WORD);
        assert H() == UpdatedWords(size, h, key, val);
        AdjustDown(0);
      }
    }

    /** One packet. */
    method Inc(flow: uint32)
      requires Valid()
      modifies this, nodes, simd.Repr
      ensures Valid()
      ensures View() == AggStep(SsUpd(size), simd.policy, SelfKey(), old(View()), flow)
    {
      var victim := simd.Aggregate(flow, flow);
      assert H() == old(H());
      if victim.Some? {
        ghost var c := simd.View();
        IncSs(victim.value.id, victim.value.count);
        assert simd.View() == c;
      }
    }
  }
}
