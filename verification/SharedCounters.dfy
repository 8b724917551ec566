/**
 Counters shared by several cores: each packet is counted by reading the counter and
 compare-and-swapping it with its successor until the swap succeeds, and then the counter
 is read once more for the threshold report.  A run is any interleaving of these steps.
 */
module SharedCounters {
  import opened Machine

  /** What a core is doing: nothing, about to read, about to swap, about to compare with the threshold. */
  datatype Core = Idle | Trying(row: nat) | Holding(row: nat, val: uint32) | Checking(row: nat)

  datatype State = State(mem: seq<uint32>, cores: seq<Core>)

  datatype Step = Begin(core: nat, row: nat) | Read(core: nat) | Cas(core: nat) | Check(core: nat)

  predicate RowInRange(s: State, c: Core) {
    c.Idle? || c.row < |s.mem|
  }

  predicate Valid(s: State) {
    forall c :: 0 <= c < |s.cores| ==> RowInRange(s, s.cores[c])
  }

  predicate Enabled(s: State, a: Step) {
    a.core < |s.cores| &&
    match a
    case Begin(c, row) => s.cores[c].Idle? && row < |s.mem|
    case Read(c) => s.cores[c].Trying?
    case Cas(c) => s.cores[c].Holding?
    case Check(c) => s.cores[c].Checking?
  }

  /** Does the step swap successfully, on this row? */
  predicate Succeeds(s: State, a: Step, row: nat)
    requires Valid(s)
  {
    a.Cas? && Enabled(s, a) && s.cores[a.core].row == row && s.mem[row] == s.cores[a.core].val
  }

  /** One step of one core; a step the core cannot take changes nothing. */
  function Next(s: State, a: Step): (s': State)
    requires Valid(s)
    ensures Valid(s') && |s'.mem| == |s.mem| && |s'.cores| == |s.cores|
  {
    if !Enabled(s, a) then s
    else
      match a
      case Begin(c, row) => s.(cores := s.cores[c := Trying(row)])
      case Read(c) => s.(cores := s.cores[c := Holding(s.cores[c].row, s.mem[s.cores[c].row])])
      case Cas(c) =>
        var row, val := s.cores[c].row, s.cores[c].val;
        if s.mem[row] == val then State(s.mem[row := Add32(val, 1)], s.cores[c := Checking(row)])
        else s.(cores := s.cores[c := Trying(row)])
      case Check(c) => s.(cores := s.cores[c := Idle])
  }

  /** The state after the first i steps. */
  function At(s0: State, run: seq<Step>, i: nat): (s: State)
    requires Valid(s0) && i <= |run|
    ensures Valid(s) && |s.mem| == |s0.mem| && |s.cores| == |s0.cores|
  {
    if i == 0 then s0 else Next(At(s0, run, i - 1), run[i - 1])
  }

  function Start(rows: nat, cores: nat): (s: State)
    ensures Valid(s)
  {
    State(seq(rows, _ => 0), seq(cores, _ => Idle))
  }

  // ---------- No update is lost ----------

  /** Successful swaps on a row in the first i steps. */
  function Successes(s0: State, run: seq<Step>, row: nat, i: nat): nat
    requires Valid(s0) && i <= |run|
  {
    if i == 0 then 0
    else Successes(s0, run, row, i - 1) + if Succeeds(At(s0, run, i - 1), run[i - 1], row) then 1 else 0
  }

  /** Packets begun on a row in the first i steps. */
  function Begun(s0: State, run: seq<Step>, row: nat, i: nat): nat
    requires Valid(s0) && i <= |run|
  {
    if i == 0 then 0
    else Begun(s0, run, row, i - 1) +
         if run[i - 1].Begin? && run[i - 1].row == row && Enabled(At(s0, run, i - 1), run[i - 1]) then 1 else 0
  }

  predicate Pending(c: Core, row: nat) {
    (c.Trying? || c.Holding?) && c.row == row
  }

  /** Cores among the first n whose packet is not counted yet. */
  function Waiting(cores: seq<Core>, row: nat, n: nat): nat
    requires n <= |cores|
  {
    if n == 0 then 0 else Waiting(cores, row, n - 1) + if Pending(cores[n - 1], row) then 1 else 0
  }

  lemma {:induction false} WaitingAt(cores: seq<Core>, row: nat, n: nat, c: nat, x: Core)
    requires n <= |cores| && c < |cores|
    ensures Waiting(cores[c := x], row, n) + (if c < n && Pending(cores[c], row) then 1 else 0)
         == Waiting(cores, row, n) + (if c < n && Pending(x, row) then 1 else 0)
  {
    if n > 0 {
      WaitingAt(cores, row, n - 1, c, x);
    }
  }

  /** Every row's counter is its number of successful swaps, modulo 2^32, in every interleaving. */
  lemma {:induction false} CounterIsSuccesses(s0: State, run: seq<Step>, row: nat, i: nat)
    requires Valid(s0) && i <= |run| && row < |s0.mem|
    ensures At(s0, run, i).mem[row] == Plus32(s0.mem[row], Successes(s0, run, row, i))
  {
    if i > 0 {
      CounterIsSuccesses(s0, run, row, i - 1);
      CounterStep(At(s0, run, i - 1), run[i - 1], row);
      AddModAssoc(s0.mem[row], Successes(s0, run, row, i - 1), 1);
    }
  }

  lemma CounterStep(s: State, a: Step, row: nat)
    requires Valid(s) && row < |s.mem|
    ensures Next(s, a).mem[row] == if Succeeds(s, a, row) then Add32(s.mem[row], 1) else s.mem[row]
  {
  }

  lemma StepConservesPackets(s: State, a: Step, row: nat)
    requires Valid(s)
    ensures Waiting(Next(s, a).cores, row, |s.cores|) + (if Succeeds(s, a, row) then 1 else 0)
            == Waiting(s.cores, row, |s.cores|) + (if a.Begin? && a.row == row && Enabled(s, a) then 1 else 0)
  {
    if Enabled(s, a) {
      WaitingAt(s.cores, row, |s.cores|, a.core, Next(s, a).cores[a.core]);
    }
  }

  /** Packets begun are counted or still waiting to be: nothing is lost and nothing counted twice. */
  lemma {:induction false} PacketsAreConserved(s0: State, run: seq<Step>, row: nat, i: nat)
    requires Valid(s0) && i <= |run|
    ensures Waiting(s0.cores, row, |s0.cores|) + Begun(s0, run, row, i)
         == Successes(s0, run, row, i) + Waiting(At(s0, run, i).cores, row, |s0.cores|)
  {
    if i > 0 {
      PacketsAreConserved(s0, run, row, i - 1);
      StepConservesPackets(At(s0, run, i - 1), run[i - 1], row);
    }
  }

  lemma {:induction false} NoneWaiting(cores: seq<Core>, row: nat, n: nat)
    requires n <= |cores| && forall c :: 0 <= c < n ==> !Pending(cores[c], row)
    ensures Waiting(cores, row, n) == 0
  {
    if n > 0 {
      NoneWaiting(cores, row, n - 1);
    }
  }

  ghost predicate AllIdle(s: State) {
    forall c :: 0 <= c < |s.cores| ==> s.cores[c].Idle?
  }

  /** Whenever no core is in the middle of a packet of the row, its counter has grown by the number of its packets. */
  lemma QuiescentCounterIsExact(s0: State, run: seq<Step>, row: nat, i: nat)
    requires Valid(s0) && AllIdle(s0) && i <= |run| && row < |s0.mem|
    requires var cores := At(s0, run, i).cores; forall c :: 0 <= c < |cores| ==> !Pending(cores[c], row)
    ensures At(s0, run, i).mem[row] == Plus32(s0.mem[row], Begun(s0, run, row, i))
  {
    assert Begun(s0, run, row, i) == Successes(s0, run, row, i) by {
      PacketsAreConserved(s0, run, row, i);
      NoneWaiting(s0.cores, row, |s0.cores|);
      NoneWaiting(At(s0, run, i).cores, row, |s0.cores|);
    }
    CounterIsSuccesses(s0, run, row, i);
  }

  // ---------- Every pending packet can be counted ----------

  /** A step by which no new packet starts. */
  predicate Continues(a: Step, core: nat) {
    a.core == core && !a.Begin?
  }

  /** A core that runs alone, whatever the value it holds, gets its packet counted within three steps. */
  lemma SoloProgress(s: State, core: nat, row: nat) returns (ext: seq<Step>)
    requires Valid(s) && core < |s.cores| && Pending(s.cores[core], row) && row < |s.mem|
    ensures |ext| <= 3 && forall i :: 0 <= i < |ext| ==> Continues(ext[i], core)
    ensures Successes(s, ext, row, |ext|) == 1
    ensures At(s, ext, |ext|) == State(s.mem[row := Add32(s.mem[row], 1)], s.cores[core := Checking(row)])
  {
    var turn := [Read(core), Cas(core)];
    if s.cores[core].Trying? {
      ext := turn;
      ReadThenSwap(s, core, row);
    } else if s.cores[core].val == s.mem[row] {
      ext := [Cas(core)];
      OneStep(s, Cas(core), row);
    } else {
      var first := [Cas(core)];
      OneStep(s, Cas(core), row);
      ReadThenSwap(Next(s, Cas(core)), core, row);
      ext := first + turn;
      AtConcat(s, first, turn, 2);
      SuccessesConcat(s, first, turn, row, 2);
      assert s.cores[core := Trying(row)][core := Checking(row)] == s.cores[core := Checking(row)];
    }
  }

  lemma OneStep(s: State, a: Step, row: nat)
    requires Valid(s)
    ensures At(s, [a], 1) == Next(s, a) && Successes(s, [a], row, 1) == if Succeeds(s, a, row) then 1 else 0
  {
    assert At(s, [a], 0) == s && Successes(s, [a], row, 0) == 0;
  }

  lemma ReadThenSwap(s: State, core: nat, row: nat)
    requires Valid(s) && core < |s.cores| && s.cores[core] == Trying(row) && row < |s.mem|
    ensures var turn := [Read(core), Cas(core)];
            && Successes(s, turn, row, 2) == 1
            && At(s, turn, 2) == State(s.mem[row := Add32(s.mem[row], 1)], s.cores[core := Checking(row)])
  {
    var turn := [Read(core), Cas(core)];
    assert At(s, turn, 0) == s && Successes(s, turn, row, 0) == 0;
    var h := Holding(row, s.mem[row]);
    assert At(s, turn, 1) == s.(cores := s.cores[core := h]) && Successes(s, turn, row, 1) == 0;
    assert s.cores[core := h][core := Checking(row)] == s.cores[core := Checking(row)];
  }

  lemma {:induction false} AtPrefix(s0: State, a: seq<Step>, b: seq<Step>, i: nat)
    requires Valid(s0) && i <= |a|
    ensures At(s0, a + b, i) == At(s0, a, i)
  {
    if i > 0 {
      AtPrefix(s0, a, b, i - 1);
    }
  }

  lemma {:induction false} AtConcat(s0: State, a: seq<Step>, b: seq<Step>, i: nat)
    requires Valid(s0) && i <= |b|
    ensures At(s0, a + b, |a| + i) == At(At(s0, a, |a|), b, i)
  {
    if i == 0 {
      AtPrefix(s0, a, b, |a|);
    } else {
      AtConcat(s0, a, b, i - 1);
    }
  }

  lemma {:induction false} SuccessesPrefix(s0: State, a: seq<Step>, b: seq<Step>, row: nat, i: nat)
    requires Valid(s0) && i <= |a|
    ensures Successes(s0, a + b, row, i) == Successes(s0, a, row, i)
  {
    if i > 0 {
      SuccessesPrefix(s0, a, b, row, i - 1);
      AtPrefix(s0, a, b, i - 1);
    }
  }

  lemma {:induction false} SuccessesConcat(s0: State, a: seq<Step>, b: seq<Step>, row: nat, i: nat)
    requires Valid(s0) && i <= |b|
    ensures Successes(s0, a + b, row, |a| + i) == Successes(s0, a, row, |a|) + Successes(At(s0, a, |a|), b, row, i)
  {
    if i == 0 {
      SuccessesPrefix(s0, a, b, row, |a|);
    } else {
      SuccessesConcat(s0, a, b, row, i - 1);
      AtConcat(s0, a, b, i - 1);
    }
  }

  lemma {:induction false} BegunPrefix(s0: State, a: seq<Step>, b: seq<Step>, row: nat, i: nat)
    requires Valid(s0) && i <= |a|
    ensures Begun(s0, a + b, row, i) == Begun(s0, a, row, i)
  {
    if i > 0 {
      BegunPrefix(s0, a, b, row, i - 1);
      AtPrefix(s0, a, b, i - 1);
    }
  }

  lemma {:induction false} NoneBegun(s0: State, a: seq<Step>, b: seq<Step>, row: nat, i: nat)
    requires Valid(s0) && i <= |b| && forall j :: 0 <= j < |b| ==> !b[j].Begin?
    ensures Begun(s0, a + b, row, |a| + i) == Begun(s0, a, row, |a|)
  {
    if i == 0 {
      BegunPrefix(s0, a, b, row, |a|);
    } else {
      NoneBegun(s0, a, b, row, i - 1);
    }
  }

  lemma {:induction false} SomeoneWaits(cores: seq<Core>, row: nat, n: nat) returns (c: nat)
    requires n <= |cores| && Waiting(cores, row, n) > 0
    ensures c < n && Pending(cores[c], row)
  {
    c := n - 1;
    if !Pending(cores[c], row) {
      c := SomeoneWaits(cores, row, n - 1);
    }
  }

  lemma {:induction false} WaitingIsPositive(cores: seq<Core>, row: nat, n: nat, c: nat)
    requires c < n <= |cores| && Pending(cores[c], row)
    ensures Waiting(cores, row, n) > 0
  {
    if c < n - 1 {
      WaitingIsPositive(cores, row, n - 1, c);
    }
  }

  /** From every state the pending packets of a row can all be counted, in at most three steps each. */
  lemma {:induction false} RowCanSettle(s: State, row: nat) returns (ext: seq<Step>)
    requires Valid(s) && row < |s.mem|
    ensures |ext| <= 3 * Waiting(s.cores, row, |s.cores|)
    ensures forall j :: 0 <= j < |ext| ==> !ext[j].Begin?
    ensures Waiting(At(s, ext, |ext|).cores, row, |s.cores|) == 0
    decreases Waiting(s.cores, row, |s.cores|)
  {
    ext := [];
    if Waiting(s.cores, row, |s.cores|) > 0 {
      var c := SomeoneWaits(s.cores, row, |s.cores|);
      var first := SoloProgress(s, c, row);
      var s' := At(s, first, |first|);
      WaitingAt(s.cores, row, |s.cores|, c, Checking(row));
      var rest := RowCanSettle(s', row);
      ext := first + rest;
      AtConcat(s, first, rest, |rest|);
    }
  }

  /**
   After every run from idle cores, whichever swaps have failed, some continuation without new
   packets leaves no packet of the row pending, and the counter then has grown by the packets begun.
   */
  lemma EveryRunCanBeCompleted(s0: State, run: seq<Step>, row: nat) returns (ext: seq<Step>)
    requires Valid(s0) && AllIdle(s0) && row < |s0.mem|
    ensures |ext| <= 3 * |s0.cores| && forall j :: 0 <= j < |ext| ==> !ext[j].Begin?
    ensures var s := At(s0, run + ext, |run + ext|);
            && (forall c :: 0 <= c < |s.cores| ==> !Pending(s.cores[c], row))
            && s.mem[row] == Plus32(s0.mem[row], Begun(s0, run, row, |run|))
  {
    var s := At(s0, run, |run|);
    ext := RowCanSettle(s, row);
    WaitingAtMost(s.cores, row, |s.cores|);
    AtConcat(s0, run, ext, |ext|);
    var all := run + ext;
    NobodyWaits(At(s0, all, |all|).cores, row);
    QuiescentCounterIsExact(s0, all, row, |all|);
    NoneBegun(s0, run, ext, row, |ext|);
  }

  lemma NobodyWaits(cores: seq<Core>, row: nat)
    requires Waiting(cores, row, |cores|) == 0
    ensures forall c :: 0 <= c < |cores| ==> !Pending(cores[c], row)
  {
    forall c | 0 <= c < |cores|
      ensures !Pending(cores[c], row)
    {
      if Pending(cores[c], row) {
        WaitingIsPositive(cores, row, |cores|, c);
      }
    }
  }

  lemma {:induction false} WaitingAtMost(cores: seq<Core>, row: nat, n: nat)
    requires n <= |cores|
    ensures Waiting(cores, row, n) <= n
  {
    if n > 0 {
      WaitingAtMost(cores, row, n - 1);
    }
  }

  /** Every solo run, not just some: of three steps that a core with a pending packet can take, one counts it. */
  lemma EverySoloRunCounts(s: State, run: seq<Step>, core: nat, row: nat)
    requires Valid(s) && core < |s.cores| && Pending(s.cores[core], row) && row < |s.mem| && |run| == 3
    requires forall i :: 0 <= i < 3 ==> run[i].core == core && Enabled(At(s, run, i), run[i])
    ensures Successes(s, run, row, 3) >= 1
  {
    assert At(s, run, 0) == s && Successes(s, run, row, 0) == 0;
    assert run[0].core == core && run[1].core == core && run[2].core == core;
    assert Enabled(At(s, run, 0), run[0]) && Enabled(At(s, run, 1), run[1]) && Enabled(At(s, run, 2), run[2]);
    assert Successes(s, run, row, 1) == if Succeeds(s, run[0], row) then 1 else 0;
    assert Successes(s, run, row, 2) == Successes(s, run, row, 1) + if Succeeds(At(s, run, 1), run[1], row) then 1 else 0;
  }

  // ---------- A failed swap means that another core got through ----------

  ghost predicate OtherSucceeds(s0: State, run: seq<Step>, core: nat, row: nat, j: nat)
    requires Valid(s0) && j < |run|
  {
    run[j].core != core && Succeeds(At(s0, run, j), run[j], row)
  }

  /** While a core keeps the value it read, the counter changes only by another core's successful swap. */
  lemma {:induction false} ChangedByAnother(s0: State, run: seq<Step>, core: nat, r: nat, i: nat) returns (j: nat)
    requires Valid(s0) && r <= i <= |run| && core < |s0.cores|
    requires forall t :: r <= t <= i ==> At(s0, run, t).cores[core].Holding?
    requires var c := At(s0, run, r).cores[core]; c.val == At(s0, run, r).mem[c.row]
    requires var c := At(s0, run, i).cores[core]; c.val != At(s0, run, i).mem[c.row]
    ensures r <= j < i && OtherSucceeds(s0, run, core, At(s0, run, i).cores[core].row, j)
    ensures At(s0, run, i).cores[core] == At(s0, run, r).cores[core]
    decreases i
  {
    StillHolding(s0, run, core, r, i);
    var s := At(s0, run, i - 1);
    var c := s.cores[core];
    StillHolding(s0, run, core, r, i - 1);
    if s.mem[c.row] == c.val {
      j := i - 1;
    } else {
      j := ChangedByAnother(s0, run, core, r, i - 1);
    }
  }

  lemma {:induction false} StillHolding(s0: State, run: seq<Step>, core: nat, r: nat, i: nat)
    requires Valid(s0) && r <= i <= |run| && core < |s0.cores|
    requires forall t :: r <= t <= i ==> At(s0, run, t).cores[core].Holding?
    ensures At(s0, run, i).cores[core] == At(s0, run, r).cores[core]
    decreases i
  {
    if r < i {
      StillHolding(s0, run, core, r, i - 1);
      assert At(s0, run, i - 1).cores[core].Holding?;
    }
  }

  /** The step after which a core holds the value it holds now. */
  lemma {:induction false} ReadBefore(s0: State, run: seq<Step>, core: nat, i: nat) returns (r: nat)
    requires Valid(s0) && i <= |run| && core < |s0.cores| && s0.cores[core].Idle?
    requires At(s0, run, i).cores[core].Holding?
    ensures r < i && run[r] == Read(core) && Enabled(At(s0, run, r), run[r])
    ensures forall t :: r < t <= i ==> At(s0, run, t).cores[core].Holding?
    ensures var c := At(s0, run, r + 1).cores[core]; c.val == At(s0, run, r + 1).mem[c.row]
  {
    if At(s0, run, i - 1).cores[core].Holding? {
      r := ReadBefore(s0, run, core, i - 1);
    } else {
      r := i - 1;
    }
  }

  /**
   In every run from idle cores: when a swap fails, another core has successfully swapped the
   same row since this core read it.  So some core always makes progress.
   */
  lemma FailedSwapMeansProgress(s0: State, run: seq<Step>, i: nat) returns (r: nat, j: nat)
    requires Valid(s0) && AllIdle(s0)
    requires i < |run| && run[i].Cas? && Enabled(At(s0, run, i), run[i])
    requires !Succeeds(At(s0, run, i), run[i], At(s0, run, i).cores[run[i].core].row)
    ensures r < j < i && run[r] == Read(run[i].core) && Enabled(At(s0, run, r), run[r])
    ensures forall t :: r < t <= i ==> At(s0, run, t).cores[run[i].core].Holding?
    ensures OtherSucceeds(s0, run, run[i].core, At(s0, run, i).cores[run[i].core].row, j)
  {
    r := ReadBefore(s0, run, run[i].core, i);
    j := ChangedByAnother(s0, run, run[i].core, r + 1, i);
  }

  // ---------- The threshold report ----------

  /** Threshold comparisons finished on a row in the first i steps. */
  function Checks(s0: State, run: seq<Step>, row: nat, i: nat): nat
    requires Valid(s0) && i <= |run|
  {
    if i == 0 then 0
    else Checks(s0, run, row, i - 1) + if ChecksRow(At(s0, run, i - 1), run[i - 1], row) then 1 else 0
  }

  predicate ChecksRow(s: State, a: Step, row: nat) {
    a.Check? && Enabled(s, a) && s.cores[a.core].row == row
  }

  /** Reports of a row: comparisons that find the counter at the threshold. */
  function Reports(s0: State, run: seq<Step>, threshold: uint32, row: nat, i: nat): nat
    requires Valid(s0) && i <= |run| && row < |s0.mem|
  {
    if i == 0 then 0
    else
      var s := At(s0, run, i - 1);
      Reports(s0, run, threshold, row, i - 1) + if ChecksRow(s, run[i - 1], row) && s.mem[row] == threshold then 1 else 0
  }

  /** Is core c at work on the row? */
  predicate Busy(s: State, row: nat, c: nat)
    requires c < |s.cores|
  {
    !s.cores[c].Idle? && s.cores[c].row == row
  }

  /** At most one core is at work on the row. */
  predicate Exclusive(s: State, row: nat) {
    forall c, d :: 0 <= c < d < |s.cores| ==> !Busy(s, row, c) || !Busy(s, row, d)
  }

  /** Some core has swapped and not yet compared. */
  predicate Unchecked(s: State, row: nat) {
    exists c :: 0 <= c < |s.cores| && Busy(s, row, c) && s.cores[c].Checking?
  }

  lemma UncheckedStep(s: State, a: Step, row: nat)
    requires Valid(s) && Exclusive(s, row) && Exclusive(Next(s, a), row)
    ensures ChecksRow(s, a, row) ==> Unchecked(s, row) && !Unchecked(Next(s, a), row)
    ensures Succeeds(s, a, row) ==> !Unchecked(s, row) && Unchecked(Next(s, a), row)
    ensures !ChecksRow(s, a, row) && !Succeeds(s, a, row) ==> (Unchecked(s, row) <==> Unchecked(Next(s, a), row))
  {
    if Enabled(s, a) {
      var s' := Next(s, a);
      var b := Busy(s, row, a.core);
      var b' := Busy(s', row, a.core);
      forall c | 0 <= c < |s.cores| && c != a.core
        ensures Busy(s', row, c) == Busy(s, row, c) && s'.cores[c] == s.cores[c]
      {
      }
      if Unchecked(s, row) && !ChecksRow(s, a, row) {
        var c :| 0 <= c < |s.cores| && Busy(s, row, c) && s.cores[c].Checking?;
        assert Busy(s', row, c);
      }
    }
  }

  ghost predicate AlwaysExclusive(s0: State, run: seq<Step>, row: nat, i: nat)
    requires Valid(s0) && i <= |run|
  {
    forall t :: 0 <= t <= i ==> Exclusive(At(s0, run, t), row)
  }

  /** Every successful swap is followed by one comparison before the next, and the report comes with the right one. */
  ghost predicate OneReport(s0: State, run: seq<Step>, threshold: uint32, row: nat, i: nat)
    requires Valid(s0) && i <= |run| && row < |s0.mem|
  {
    && Successes(s0, run, row, i) == Checks(s0, run, row, i) + (if Unchecked(At(s0, run, i), row) then 1 else 0)
    && Reports(s0, run, threshold, row, i) == if Checks(s0, run, row, i) >= threshold then 1 else 0
  }

  lemma OneReportStep(s0: State, run: seq<Step>, threshold: uint32, row: nat, i: nat)
    requires Valid(s0) && 0 < i <= |run| && row < |s0.mem| && threshold > 0
    requires Exclusive(At(s0, run, i - 1), row) && Exclusive(At(s0, run, i), row)
    requires OneReport(s0, run, threshold, row, i - 1)
    requires At(s0, run, i - 1).mem[row] == Successes(s0, run, row, i - 1)
    ensures OneReport(s0, run, threshold, row, i)
  {
    UncheckedStep(At(s0, run, i - 1), run[i - 1], row);
  }

  /** If no two cores work on the row at the same time, it is reported exactly once, at its threshold-th packet. */
  lemma {:induction false} ReportedOnceIfExclusive(s0: State, run: seq<Step>, threshold: uint32, row: nat, i: nat)
    requires Valid(s0) && AllIdle(s0) && row < |s0.mem| && s0.mem[row] == 0
    requires i <= |run| < WORD && threshold > 0 && AlwaysExclusive(s0, run, row, i)
    ensures OneReport(s0, run, threshold, row, i)
  {
    if i > 0 {
      ReportedOnceIfExclusive(s0, run, threshold, row, i - 1);
      assert Exclusive(At(s0, run, i - 1), row) && Exclusive(At(s0, run, i), row);
      SmallCounter(s0, run, row, i - 1);
      OneReportStep(s0, run, threshold, row, i);
    }
  }

  /** A counter that starts at 0 does not wrap in a run of fewer than 2^32 steps. */
  lemma SmallCounter(s0: State, run: seq<Step>, row: nat, i: nat)
    requires Valid(s0) && row < |s0.mem| && s0.mem[row] == 0 && i <= |run| < WORD
    ensures At(s0, run, i).mem[row] == Successes(s0, run, row, i)
  {
    CounterIsSuccesses(s0, run, row, i);
    SuccessesBound(s0, run, row, i);
    Plus32Small(0, Successes(s0, run, row, i));
  }

  lemma {:induction false} SuccessesBound(s0: State, run: seq<Step>, row: nat, i: nat)
    requires Valid(s0) && i <= |run|
    ensures Successes(s0, run, row, i) <= i
  {
    if i > 0 {
      SuccessesBound(s0, run, row, i - 1);
    }
  }

  // ---------- How many reports ----------

  predicate Comparing(c: Core, row: nat) {
    c.Checking? && c.row == row
  }

  /** Cores among the first n that have swapped on the row and not yet compared. */
  function CheckingCores(cores: seq<Core>, row: nat, n: nat): nat
    requires n <= |cores|
  {
    if n == 0 then 0 else CheckingCores(cores, row, n - 1) + if Comparing(cores[n - 1], row) then 1 else 0
  }

  lemma {:induction false} CheckingAt(cores: seq<Core>, row: nat, n: nat, c: nat, x: Core)
    requires n <= |cores| && c < |cores|
    ensures CheckingCores(cores[c := x], row, n) + (if c < n && Comparing(cores[c], row) then 1 else 0)
         == CheckingCores(cores, row, n) + (if c < n && Comparing(x, row) then 1 else 0)
  {
    if n > 0 {
      CheckingAt(cores, row, n - 1, c, x);
    }
  }

  /** Only a successful swap adds a core that will compare, and only a comparison removes one. */
  lemma StepComparing(s: State, a: Step, row: nat)
    requires Valid(s)
    ensures CheckingCores(Next(s, a).cores, row, |s.cores|) + (if ChecksRow(s, a, row) then 1 else 0)
         == CheckingCores(s.cores, row, |s.cores|) + (if Succeeds(s, a, row) then 1 else 0)
  {
    if Enabled(s, a) {
      CheckingAt(s.cores, row, |s.cores|, a.core, Next(s, a).cores[a.core]);
    }
  }

  /** Cores that still have to compare on the row after the first i steps. */
  function Open(s0: State, run: seq<Step>, row: nat, i: nat): nat
    requires Valid(s0) && i <= |run|
  {
    CheckingCores(At(s0, run, i).cores, row, |s0.cores|)
  }

  /** Step a is the threshold-th successful swap, and e is the next one or the end of the run. */
  ghost predicate ThresholdWindow(s0: State, run: seq<Step>, threshold: uint32, row: nat, a: nat, e: nat)
    requires Valid(s0)
  {
    && a < e <= |run| && Succeeds(At(s0, run, a), run[a], row) && Successes(s0, run, row, a + 1) == threshold
    && (forall t :: a < t < e ==> NoSwap(s0, run, row, t))
    && (e < |run| ==> Succeeds(At(s0, run, e), run[e], row))
  }

  ghost predicate NoSwap(s0: State, run: seq<Step>, row: nat, t: nat)
    requires Valid(s0) && t < |run|
  {
    !Succeeds(At(s0, run, t), run[t], row)
  }

  lemma {:induction false} NoReportYet(s0: State, run: seq<Step>, threshold: uint32, row: nat, i: nat)
    requires Valid(s0) && row < |s0.mem| && s0.mem[row] == 0 && i <= |run| < WORD && Successes(s0, run, row, i) < threshold
    ensures Reports(s0, run, threshold, row, i) == 0
  {
    if i > 0 {
      NoReportYet(s0, run, threshold, row, i - 1);
      SmallCounter(s0, run, row, i - 1);
    }
  }

  /** Within the window every comparison is a report. */
  lemma {:induction false} ReportsInWindow(s0: State, run: seq<Step>, threshold: uint32, row: nat, a: nat, e: nat, i: nat)
    requires Valid(s0) && row < |s0.mem| && s0.mem[row] == 0 && |run| < WORD
    requires ThresholdWindow(s0, run, threshold, row, a, e) && a < i <= e
    ensures Successes(s0, run, row, i) == threshold
    ensures Reports(s0, run, threshold, row, i) + Open(s0, run, row, i) == Open(s0, run, row, a + 1)
    decreases i
  {
    if i == a + 1 {
      NoReportYet(s0, run, threshold, row, a);
    } else {
      ReportsInWindow(s0, run, threshold, row, a, e, i - 1);
      assert NoSwap(s0, run, row, i - 1);
      SmallCounter(s0, run, row, i - 1);
      StepComparing(At(s0, run, i - 1), run[i - 1], row);
    }
  }

  /** Past the window nothing is reported. */
  lemma {:induction false} NoReportAfter(s0: State, run: seq<Step>, threshold: uint32, row: nat, e: nat, i: nat)
    requires Valid(s0) && row < |s0.mem| && s0.mem[row] == 0 && |run| < WORD
    requires e <= i <= |run| && Successes(s0, run, row, e) == threshold && (e < |run| ==> Succeeds(At(s0, run, e), run[e], row))
    ensures Reports(s0, run, threshold, row, i) == Reports(s0, run, threshold, row, e)
    ensures e < i ==> Successes(s0, run, row, i) > threshold
    decreases i
  {
    if e < i {
      NoReportAfter(s0, run, threshold, row, e, i - 1);
      SmallCounter(s0, run, row, i - 1);
      if i - 1 == e {
        assert run[e].Cas?;
      } else {
        assert At(s0, run, i - 1).mem[row] > threshold;
      }
    }
  }

  /**
   With racing cores, in every interleaving: a row is reported once for each core that is
   between its swap and its comparison right after the threshold-th successful swap, the
   swapping core included, and that compares before the next successful swap.
   */
  lemma ReportCount(s0: State, run: seq<Step>, threshold: uint32, row: nat, a: nat, e: nat)
    requires Valid(s0) && row < |s0.mem| && s0.mem[row] == 0 && |run| < WORD
    requires ThresholdWindow(s0, run, threshold, row, a, e)
    ensures Open(s0, run, row, a + 1) >= 1
    ensures Reports(s0, run, threshold, row, |run|) == Open(s0, run, row, a + 1) - Open(s0, run, row, e)
  {
    ReportsInWindow(s0, run, threshold, row, a, e, e);
    NoReportAfter(s0, run, threshold, row, e, |run|);
    StepComparing(At(s0, run, a), run[a], row);
  }

  /** A row that has not reached the threshold is not reported. */
  lemma NoReportBelowThreshold(s0: State, run: seq<Step>, threshold: uint32, row: nat)
    requires Valid(s0) && row < |s0.mem| && s0.mem[row] == 0 && |run| < WORD && Successes(s0, run, row, |run|) < threshold
    ensures Reports(s0, run, threshold, row, |run|) == 0
  {
    NoReportYet(s0, run, threshold, row, |run|);
  }

  /** If all those cores compare in time, the row is reported exactly once if and only if the swapping core was alone among them. */
  lemma ReportedOnceExactlyWhen(s0: State, run: seq<Step>, threshold: uint32, row: nat, a: nat, e: nat)
    requires Valid(s0) && row < |s0.mem| && s0.mem[row] == 0 && |run| < WORD
    requires ThresholdWindow(s0, run, threshold, row, a, e)
    ensures Reports(s0, run, threshold, row, |run|) == 1 <==> Open(s0, run, row, e) == Open(s0, run, row, a)
    ensures Open(s0, run, row, e) == 0 ==> (Reports(s0, run, threshold, row, |run|) == 1 <==> Open(s0, run, row, a) == 0)
  {
    ReportCount(s0, run, threshold, row, a, e);
    StepComparing(At(s0, run, a), run[a], row);
  }

  /** A race that passes the threshold between a swap and its comparison. */
  function Race(): seq<Step> {
    [Begin(0, 0), Begin(1, 0), Read(0), Cas(0), Read(1), Cas(1), Check(0), Check(1)]
  }

  lemma RaceStates()
    ensures var s0 := Start(1, 2);
            && At(s0, Race(), 4) == State([1], [Checking(0), Trying(0)])
            && At(s0, Race(), 5) == State([1], [Checking(0), Holding(0, 1)])
            && At(s0, Race(), 6) == State([2], [Checking(0), Checking(0)])
            && At(s0, Race(), 7) == State([2], [Idle, Checking(0)])
  {
    var s0 := Start(1, 2);
    assert At(s0, Race(), 0) == State([0], [Idle, Idle]);
    assert At(s0, Race(), 1) == State([0], [Trying(0), Idle]);
    assert At(s0, Race(), 2) == State([0], [Trying(0), Trying(0)]);
    assert At(s0, Race(), 3) == State([0], [Holding(0, 0), Trying(0)]);
  }

  lemma {:induction false} NoChecksYet(s0: State, run: seq<Step>, threshold: uint32, row: nat, i: nat)
    requires Valid(s0) && row < |s0.mem| && i <= |run| && forall t :: 0 <= t < i ==> !run[t].Check?
    ensures Reports(s0, run, threshold, row, i) == 0
  {
    if i > 0 {
      NoChecksYet(s0, run, threshold, row, i - 1);
    }
  }

  /** Two cores on one row with threshold 1: the counter ends at 2, both have compared, and the row is never reported. */
  lemma RacingReportCanBeMissed()
    ensures Next(At(Start(1, 2), Race(), 7), Race()[7]) == State([2], [Idle, Idle])
    ensures Reports(Start(1, 2), Race(), 1, 0, 8) == 0
  {
    var s0 := Start(1, 2);
    RaceStates();
    NoChecksYet(s0, Race(), 1, 0, 6);
    assert Reports(s0, Race(), 1, 0, 7) == 0;
  }

  /** The same race with threshold 2: both cores find the counter at 2, and the row is reported twice. */
  lemma RacingReportCanBeDoubled()
    ensures Reports(Start(1, 2), Race(), 2, 0, 8) == 2
  {
    var s0 := Start(1, 2);
    RaceStates();
    NoChecksYet(s0, Race(), 2, 0, 6);
    assert Reports(s0, Race(), 2, 0, 7) == 1;
  }
}
