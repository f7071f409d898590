/**
 The pipeline gets done what the proc can do: if the sequential proc can run some iterations on the items that
 the ports supply, then every stage of the circuit fires for each of them, one per cycle, and in the same way.
 */
module PipelineCompleteness {
  import opened Options
  import opened IrValues
  import opened ElasticPipeline
  import opened ProcOutputs
  import opened PipelineProgress
  import opened SequentialProc

  // ---------------------------------------------------------------------------
  // What the iterations of the sequential proc are
  // ---------------------------------------------------------------------------

  /** The firing takes the first item of the queues of its active receives, and only those. */
  ghost predicate TakesFirst(stage: Stage, f: Firing, q: seq<seq<Value>>, q': seq<seq<Value>>)
    requires |f.received| == |q| == |q'| == |stage.receives|
  {
    forall i | 0 <= i < |stage.receives| :: TakesFirstAt(stage, f, q, q', i)
  }

  ghost predicate TakesFirstAt(stage: Stage, f: Firing, q: seq<seq<Value>>, q': seq<seq<Value>>, i: nat)
    requires i < |f.received| == |q| == |q'| == |stage.receives|
  {
    if Active(stage, f, i) then q[i] != [] && f.received[i] == q[i][0] && q'[i] == q[i][1..]
    else f.received[i] == stage.receives[i].zero && q'[i] == q[i]
  }

  lemma {:induction false} TakeInputsIs(stage: Stage, d: Value, s: Value, q: seq<seq<Value>>, k: nat, f: Firing,
                                        q': seq<seq<Value>>)
    requires k <= |stage.receives| == |q| == |q'| == |f.received| && f.d == d && f.s == s
    requires TakeInputs(stage, d, s, q, k) == Some((f.received[..k], q'))
    ensures forall i | 0 <= i < k :: TakesFirstAt(stage, f, q, q', i)
    ensures forall i | k <= i < |q| :: q'[i] == q[i]
  {
    if k > 0 {
      var before := TakeInputs(stage, d, s, q, k - 1);
      var (e, q1) := before.value;
      assert e == f.received[..k - 1] && f.received[..k][k - 1] == f.received[k - 1];
      TakeInputsIs(stage, d, s, q, k - 1, f, q1);
      forall i | 0 <= i < k
        ensures TakesFirstAt(stage, f, q, q', i)
      {
        if i < k - 1 {
          assert TakesFirstAt(stage, f, q, q1, i);
        }
      }
    }
  }

  /** Firing `f` of stage `n` takes the machine from `m` to `m'`, as far as the stage goes. */
  ghost predicate StageMoves(p: Proc, n: nat, f: Firing, m: Machine, m': Machine)
    requires MachineFits(p, m) && MachineFits(p, m') && n < |p.stages|
  {
    && f.s == m.state[n] && m'.state[n] == NextOf(p.stages[n], f)
    && |f.received| == |p.stages[n].receives| && TakesFirst(p.stages[n], f, m.queues[n], m'.queues[n])
  }

  /** In an iteration from stage `n` on, the j-th stage sees what the one before puts out, and moves. */
  ghost predicate StageRan(p: Proc, n: nat, d: Value, fs: seq<Firing>, m: Machine, m': Machine, j: nat)
    requires MachineFits(p, m) && MachineFits(p, m') && j < |fs| && n + |fs| == |p.stages|
  {
    && StageMoves(p, n + j, fs[j], m, m')
    && fs[j].d == if j == 0 then d else OutOf(p.stages[n + j - 1], fs[j - 1])
  }

  lemma {:induction false} RunStagesIs(p: Proc, n: nat, d: Value, m: Machine)
    requires MachineFits(p, m) && n <= |p.stages| && RunStages(p, n, d, m).Some?
    ensures var (m', fs) := RunStages(p, n, d, m).value;
            && (forall j | 0 <= j < |fs| :: StageRan(p, n, d, fs, m, m', j))
            && (forall k | 0 <= k < n :: m'.state[k] == m.state[k] && m'.queues[k] == m.queues[k])
    decreases |p.stages| - n
  {
    if n < |p.stages| {
      var stage := p.stages[n];
      var (e, q) := TakeInputs(stage, d, m.state[n], m.queues[n], |stage.receives|).value;
      var f := Firing(d, m.state[n], e);
      var m1 := Machine(m.state[n := NextOf(stage, f)], m.queues[n := q]);
      assert e == f.received[..|stage.receives|];
      TakeInputsIs(stage, d, m.state[n], m.queues[n], |stage.receives|, f, q);
      hide TakeInputs, NextOf, OutOf, TakesFirstAt;
      RunStagesIs(p, n + 1, OutOf(stage, f), m1);
      var (m', fs) := RunStages(p, n, d, m).value;
      var rest := RunStages(p, n + 1, OutOf(stage, f), m1).value.1;
      assert fs == [f] + rest;
      forall j | 0 <= j < |fs|
        ensures StageRan(p, n, d, fs, m, m', j)
      {
        if j > 0 {
          assert StageRan(p, n + 1, OutOf(stage, f), rest, m1, m', j - 1);
        }
      }
    }
  }

  /** What is known of row `k` of the iterations. */
  ghost predicate RowIs(p: Proc, queues: seq<seq<seq<Value>>>, rows: seq<seq<Firing>>, k: nat, n: nat)
    requires WellFormed(p) && k < |rows| && n < |p.stages| && |queues| == |p.stages|
    requires forall i | 0 <= i < |rows| :: |rows[i]| == |p.stages|
    requires |queues[n]| == |p.stages[n].receives|
  {
    var f := rows[k][n];
    && f.d == (if n == 0 then p.start else OutOf(p.stages[n - 1], rows[k][n - 1]))
    && f.s == (if k == 0 then p.init[n] else NextOf(p.stages[n], rows[k - 1][n]))
    && LogFits(p.stages[n], Column(rows, n)) && Gated(p.stages[n], f)
    && forall i | 0 <= i < |p.stages[n].receives| && Active(p.stages[n], f, i) ::
         NextItem(p.stages[n], Column(rows, n)[..k], queues[n], i) == Some(f.received[i])
  }

  /** The item of receive `i` that comes after those that the firings took, if there is one. */
  ghost function NextItem(stage: Stage, log: seq<Firing>, queues: seq<seq<Value>>, i: nat): Option<Value>
    requires i < |stage.receives| == |queues| && LogFits(stage, log)
  {
    var taken := |Taken(stage, log, i)|;
    if taken < |queues[i]| then Some(queues[i][taken]) else None
  }

  /** The queues that are left after the firings. */
  ghost predicate Left(stage: Stage, log: seq<Firing>, queues: seq<seq<Value>>, left: seq<seq<Value>>)
    requires |stage.receives| == |queues| == |left| && LogFits(stage, log)
  {
    forall i | 0 <= i < |queues| ::
      |Taken(stage, log, i)| <= |queues[i]| && left[i] == queues[i][|Taken(stage, log, i)|..]
  }

  lemma LeftNext(stage: Stage, log: seq<Firing>, queues: seq<seq<Value>>, left: seq<seq<Value>>, f: Firing,
                 left': seq<seq<Value>>)
    requires |stage.receives| == |queues| == |left| == |left'| == |f.received| && LogFits(stage, log)
    requires Left(stage, log, queues, left) && TakesFirst(stage, f, left, left')
    ensures LogFits(stage, log + [f]) && Left(stage, log + [f], queues, left')
    ensures Gated(stage, f)
    ensures forall i | 0 <= i < |queues| && Active(stage, f, i) :: NextItem(stage, log, queues, i) == Some(f.received[i])
  {
    hide Active;
    assert (log + [f])[..|log|] == log;
    forall i | 0 <= i < |queues|
      ensures |Taken(stage, log + [f], i)| <= |queues[i]| && left'[i] == queues[i][|Taken(stage, log + [f], i)|..]
      ensures Active(stage, f, i) || f.received[i] == stage.receives[i].zero
      ensures Active(stage, f, i) ==> NextItem(stage, log, queues, i) == Some(f.received[i])
    {
      assert TakesFirstAt(stage, f, left, left', i);
    }
  }

  /** The machine after the iterations, seen from one stage. */
  ghost predicate StageAt(p: Proc, queues: seq<seq<seq<Value>>>, rows: seq<seq<Firing>>, n: nat, m: Machine)
    requires MachineFits(p, m) && |queues| == |p.stages| && n < |p.stages| && |queues[n]| == |p.stages[n].receives|
    requires forall i | 0 <= i < |rows| :: |rows[i]| == |p.stages|
  {
    && m.state[n] == (if rows == [] then p.init[n] else NextOf(p.stages[n], rows[|rows| - 1][n]))
    && LogFits(p.stages[n], Column(rows, n)) && Left(p.stages[n], Column(rows, n), queues[n], m.queues[n])
  }

  lemma StageAdvances(p: Proc, queues: seq<seq<seq<Value>>>, rows: seq<seq<Firing>>, row: seq<Firing>, n: nat,
                      m: Machine, m': Machine)
    requires MachineFits(p, m) && MachineFits(p, m') && |queues| == |p.stages| && n < |p.stages|
    requires |queues[n]| == |p.stages[n].receives| && (forall i | 0 <= i < |rows| :: |rows[i]| == |p.stages|)
             && |row| == |p.stages|
    requires StageAt(p, queues, rows, n, m) && StageMoves(p, n, row[n], m, m')
    requires row[n].d == if n == 0 then p.start else OutOf(p.stages[n - 1], row[n - 1])
    ensures StageAt(p, queues, rows + [row], n, m') && RowIs(p, queues, rows + [row], |rows|, n)
  {
    hide NextOf, OutOf, Taken, Active;
    var all := rows + [row];
    assert Column(all, n) == Column(rows, n) + [row[n]];
    assert Column(all, n)[..|rows|] == Column(rows, n);
    LeftNext(p.stages[n], Column(rows, n), queues[n], m.queues[n], row[n], m'.queues[n]);
  }

  lemma RowStays(p: Proc, queues: seq<seq<seq<Value>>>, rows: seq<seq<Firing>>, row: seq<Firing>, k: nat, n: nat)
    requires WellFormed(p) && k < |rows| && n < |p.stages| == |queues| && |queues[n]| == |p.stages[n].receives|
    requires (forall i | 0 <= i < |rows| :: |rows[i]| == |p.stages|) && |row| == |p.stages|
    requires RowIs(p, queues, rows, k, n) && |row[n].received| == |p.stages[n].receives|
    ensures RowIs(p, queues, rows + [row], k, n)
  {
    hide NextOf, OutOf, Gated, Active;
    var all := rows + [row];
    assert Column(all, n) == Column(rows, n) + [row[n]];
    assert Column(all, n)[..k] == Column(rows, n)[..k];
  }

  ghost predicate Suit(p: Proc, queues: seq<seq<seq<Value>>>) {
    MachineFits(p, Machine(p.init, queues))
  }

  /** Every iteration of the sequential proc takes the items that come next. */
  lemma {:induction false} IterateIs(p: Proc, k: nat, queues: seq<seq<seq<Value>>>)
    requires Suit(p, queues) && Iterate(p, k, Machine(p.init, queues)).Some?
    ensures var (m, rows) := Iterate(p, k, Machine(p.init, queues)).value;
            && (forall n | 0 <= n < |p.stages| :: StageAt(p, queues, rows, n, m))
            && (forall i, n | 0 <= i < k && 0 <= n < |p.stages| :: RowIs(p, queues, rows, i, n))
  {
    hide RunStages, StageAt, StageRan, RowIs;
    if k > 0 {
      IterateIs(p, k - 1, queues);
      var (m1, rows) := Iterate(p, k - 1, Machine(p.init, queues)).value;
      RunStagesIs(p, 0, p.start, m1);
      var (m2, row) := RunStages(p, 0, p.start, m1).value;
      assert Iterate(p, k, Machine(p.init, queues)) == Some((m2, rows + [row]));
      forall n | 0 <= n < |p.stages|
        ensures StageAt(p, queues, rows + [row], n, m2)
      {
        IterationNext(p, queues, rows, row, n, m1, m2);
      }
      forall i, n | 0 <= i < k && 0 <= n < |p.stages|
        ensures RowIs(p, queues, rows + [row], i, n)
      {
        IterationNext(p, queues, rows, row, n, m1, m2);
      }
    } else {
      NoIterations(p, queues);
    }
  }

  lemma NoIterations(p: Proc, queues: seq<seq<seq<Value>>>)
    requires Suit(p, queues)
    ensures forall n | 0 <= n < |p.stages| :: StageAt(p, queues, [], n, Machine(p.init, queues))
  {
    assert forall n | 0 <= n < |p.stages| :: Column([], n) == [];
  }

  lemma IterationNext(p: Proc, queues: seq<seq<seq<Value>>>, rows: seq<seq<Firing>>, row: seq<Firing>, n: nat,
                      m: Machine, m': Machine)
    requires MachineFits(p, m) && MachineFits(p, m') && |queues| == |p.stages| && n < |p.stages|
    requires |queues[n]| == |p.stages[n].receives| && (forall i | 0 <= i < |rows| :: |rows[i]| == |p.stages|)
             && |row| == |p.stages|
    requires StageAt(p, queues, rows, n, m) && StageRan(p, 0, p.start, row, m, m', n)
    requires forall i | 0 <= i < |rows| :: RowIs(p, queues, rows, i, n)
    ensures StageAt(p, queues, rows + [row], n, m')
    ensures forall i | 0 <= i < |rows| + 1 :: RowIs(p, queues, rows + [row], i, n)
  {
    hide StageAt, RowIs, TakesFirst, OutOf, NextOf;
    StageAdvances(p, queues, rows, row, n, m, m');
    forall i | 0 <= i < |rows|
      ensures RowIs(p, queues, rows + [row], i, n)
    {
      RowStays(p, queues, rows, row, i, n);
    }
  }

  // ---------------------------------------------------------------------------
  // The circuit does the same
  // ---------------------------------------------------------------------------

  /** Two gated firings on the same data and state that take the same items are the same. */
  lemma {:induction false} SameFiring(stage: Stage, f: Firing, g: Firing, k: nat)
    requires Gated(stage, f) && Gated(stage, g) && f.d == g.d && f.s == g.s && k <= |stage.receives|
    requires forall i | 0 <= i < |stage.receives| && Active(stage, f, i) && Active(stage, g, i) :: f.received[i] == g.received[i]
    ensures f.received[..k] == g.received[..k]
  {
    if k > 0 {
      SameFiring(stage, f, g, k - 1);
      assert Active(stage, f, k - 1) <==> Active(stage, g, k - 1);
      assert f.received[..k] == f.received[..k - 1] + [f.received[k - 1]];
      assert g.received[..k] == g.received[..k - 1] + [g.received[k - 1]];
    }
  }

  /** The first items that were taken are those of the queues. */
  ghost predicate ConsumedFrom(p: Proc, queues: seq<seq<seq<Value>>>, h: History) {
    && HistoryFits(p, h) && |queues| == |p.stages|
    && (forall n | 0 <= n < |p.stages| :: |queues[n]| == |p.stages[n].receives|)
    && forall n, i, a | 0 <= n < |p.stages| && 0 <= i < |p.stages[n].receives| && 0 <= a < |queues[n][i]|
                        && a < |h.consumed[n][i]| ::
         h.consumed[n][i][a] == queues[n][i][a]
  }

  /** While items of the queues are left, the ports supply the next ones. */
  ghost predicate Supplies(p: Proc, queues: seq<seq<seq<Value>>>, h: History, w: Ports)
    requires HistoryFits(p, h) && PortsFit(p, w) && Suit(p, queues)
  {
    forall n, i | 0 <= n < |p.stages| && 0 <= i < |p.stages[n].receives| && |h.consumed[n][i]| < |queues[n][i]| ::
      w.valid[n][i] && w.data[n][i] == queues[n][i][|h.consumed[n][i]|]
  }

  lemma ConsumedStep(p: Proc, queues: seq<seq<seq<Value>>>, r: Registers, w: Ports, h: History)
    requires Fits(p, r, w) && Suit(p, queues) && ConsumedFrom(p, queues, h) && Supplies(p, queues, h, w)
    ensures ConsumedFrom(p, queues, Record(p, r, w, h))
  {
    hide InputReady, Log, Delivered;
    var h' := Record(p, r, w, h);
    forall n, i, a | 0 <= n < |p.stages| && 0 <= i < |p.stages[n].receives| && 0 <= a < |queues[n][i]| && a < |h'.consumed[n][i]|
      ensures h'.consumed[n][i][a] == queues[n][i][a]
    {
      assert h'.consumed[n][i] == Consumed(p, r, w, h, n, i);
    }
  }

  /** What a firing takes comes next after what the firings before it took. */
  lemma {:induction false} TakenNext(stage: Stage, log: seq<Firing>, k: nat, i: nat)
    requires i < |stage.receives| && LogFits(stage, log) && k < |log| && Active(stage, log[k], i)
    ensures |Taken(stage, log[..k], i)| < |Taken(stage, log, i)|
    ensures Taken(stage, log, i)[|Taken(stage, log[..k], i)|] == log[k].received[i]
    decreases |log|
  {
    hide Active;
    var last := |log| - 1;
    if k < last {
      TakenNext(stage, log[..last], k, i);
      assert log[..last][..k] == log[..k];
    }
  }

  /** The items that firing `f` of stage `n` takes are those that come next, as far as there are any. */
  ghost predicate TakesNext(p: Proc, queues: seq<seq<seq<Value>>>, h: History, n: nat, k: nat, f: Firing)
    requires HistoryFits(p, h) && Suit(p, queues) && n < |p.stages| && k <= |h.log[n]| && LogFits(p.stages[n], h.log[n])
    requires |f.received| == |p.stages[n].receives|
  {
    forall i | 0 <= i < |p.stages[n].receives| && Active(p.stages[n], f, i)
               && NextItem(p.stages[n], h.log[n][..k], queues[n], i).Some? ::
      NextItem(p.stages[n], h.log[n][..k], queues[n], i) == Some(f.received[i])
  }

  lemma LoggedTakesNext(p: Proc, queues: seq<seq<seq<Value>>>, r: Registers, h: History, n: nat, k: nat)
    requires Suit(p, queues) && Traced(p, r, h) && ConsumedFrom(p, queues, h) && n < |p.stages| && k < |h.log[n]|
    ensures LogFits(p.stages[n], h.log[n]) && Gated(p.stages[n], h.log[n][k]) && TakesNext(p, queues, h, n, k, h.log[n][k])
  {
    hide Active, Taken, LinkTraced;
    assert StageTraced(p, r, h, n);
    forall i | 0 <= i < |p.stages[n].receives| && Active(p.stages[n], h.log[n][k], i)
               && NextItem(p.stages[n], h.log[n][..k], queues[n], i).Some?
      ensures NextItem(p.stages[n], h.log[n][..k], queues[n], i) == Some(h.log[n][k].received[i])
    {
      TakenNext(p.stages[n], h.log[n], k, i);
      var a := |Taken(p.stages[n], h.log[n][..k], i)|;
      assert h.consumed[n][i][a] == queues[n][i][a];
    }
  }

  /** The rows are those of iterations that the sequential proc can run. */
  ghost predicate AreRows(p: Proc, queues: seq<seq<seq<Value>>>, rows: seq<seq<Firing>>) {
    && Suit(p, queues) && (forall i | 0 <= i < |rows| :: |rows[i]| == |p.stages|)
    && forall i, n | 0 <= i < |rows| && 0 <= n < |p.stages| :: RowIs(p, queues, rows, i, n)
  }

  /** A firing of the pipeline for an iteration that the sequential proc can run is what that does. */
  lemma {:induction false} FiringMatches(p: Proc, queues: seq<seq<seq<Value>>>, rows: seq<seq<Firing>>, r: Registers, h: History,
                                         n: nat, k: nat, f: Firing)
    requires AreRows(p, queues, rows) && Traced(p, r, h) && ConsumedFrom(p, queues, h)
    requires n < |p.stages| && k < |rows| && Sees(p, h, n, k, f)
    requires LogFits(p.stages[n], h.log[n]) && Gated(p.stages[n], f) && TakesNext(p, queues, h, n, k, f)
    ensures f == rows[k][n]
    decreases n, k, 0
  {
    hide Traced, Gated, StateFrom, OutOf, NextOf, Active, Taken, LogFits;
    assert RowIs(p, queues, rows, k, n);
    if n > 0 {
      LogMatches(p, queues, rows, r, h, n - 1, k);
    }
    forall m | 0 <= m < k
      ensures h.log[n][m] == rows[m][n]
    {
      LogMatches(p, queues, rows, r, h, n, m);
    }
    assert h.log[n][..k] == Column(rows, n)[..k];
    StateBefore(p, h, n, k);
    MatchingFirings(p, queues, rows, h, n, k, f);
  }

  lemma StateBefore(p: Proc, h: History, n: nat, k: nat)
    requires WellFormed(p) && HistoryFits(p, h) && n < |p.stages| && k <= |h.log[n]|
    ensures StateFrom(p, h.log[n][..k], n) == if k == 0 then p.init[n] else NextOf(p.stages[n], h.log[n][k - 1])
  {
  }

  lemma MatchingFirings(p: Proc, queues: seq<seq<seq<Value>>>, rows: seq<seq<Firing>>, h: History, n: nat, k: nat, f: Firing)
    requires AreRows(p, queues, rows) && HistoryFits(p, h) && n < |p.stages| && k < |rows| && k <= |h.log[n]|
    requires LogFits(p.stages[n], h.log[n]) && Gated(p.stages[n], f) && TakesNext(p, queues, h, n, k, f)
    requires f.d == rows[k][n].d && f.s == rows[k][n].s && h.log[n][..k] == Column(rows, n)[..k]
    ensures f == rows[k][n]
  {
    hide Active, Taken, OutOf, NextOf, NextItem;
    assert RowIs(p, queues, rows, k, n);
    var g := rows[k][n];
    SameFiring(p.stages[n], f, g, |p.stages[n].receives|);
    assert f.received == f.received[..|f.received|] && g.received == g.received[..|g.received|];
  }

  lemma {:induction false} LogMatches(p: Proc, queues: seq<seq<seq<Value>>>, rows: seq<seq<Firing>>, r: Registers, h: History,
                                      n: nat, k: nat)
    requires AreRows(p, queues, rows) && Traced(p, r, h) && ConsumedFrom(p, queues, h)
    requires n < |p.stages| && k < |rows| && k < |h.log[n]|
    ensures h.log[n][k] == rows[k][n]
    decreases n, k, 1
  {
    LoggedSees(p, r, h, n, k);
    LoggedTakesNext(p, queues, r, h, n, k);
    FiringMatches(p, queues, rows, r, h, n, k, h.log[n][k]);
  }

  // ---------------------------------------------------------------------------
  // So it gets them done
  // ---------------------------------------------------------------------------

  /** In every cycle the ports supply the queues, and the ports of active sends are ready. */
  ghost predicate SuppliedRun(p: Proc, queues: seq<seq<seq<Value>>>, data: seq<Value>, ws: seq<Ports>)
    requires IsRun(p, data, ws) && Suit(p, queues)
  {
    forall t {:trigger RegistersAt(p, data, ws, t)} | 0 <= t < |ws| ::
      && Supplies(p, queues, HistoryAt(p, data, ws, t), ws[t])
      && SendsReady(p, RegistersAt(p, data, ws, t), ws[t])
  }

  ghost predicate SendsReady(p: Proc, r: Registers, w: Ports)
    requires Fits(p, r, w)
  {
    forall n, j | 0 <= n < |p.stages| && 0 <= j < |p.stages[n].sends| && Sends(p.stages[n], Now(p, r, w, n), j) :: w.ready[n][j]
  }

  lemma SuppliedNow(p: Proc, queues: seq<seq<seq<Value>>>, data: seq<Value>, ws: seq<Ports>, t: nat)
    requires IsRun(p, data, ws) && Suit(p, queues) && SuppliedRun(p, queues, data, ws) && t < |ws|
    ensures Supplies(p, queues, HistoryAt(p, data, ws, t), ws[t])
    ensures SendsReady(p, RegistersAt(p, data, ws, t), ws[t])
  {
    hide Supplies, SendsReady, RegistersAt, HistoryAt;
    var r := RegistersAt(p, data, ws, t);
  }

  lemma {:induction false} RunConsumesFrom(p: Proc, queues: seq<seq<seq<Value>>>, data: seq<Value>, ws: seq<Ports>, t: nat)
    requires IsRun(p, data, ws) && Suit(p, queues) && SuppliedRun(p, queues, data, ws) && t <= |ws|
    ensures ConsumedFrom(p, queues, HistoryAt(p, data, ws, t))
  {
    hide Record, Supplies, SendsReady, RegistersAt, SuppliedRun;
    if t > 0 {
      RunConsumesFrom(p, queues, data, ws, t - 1);
      SuppliedNow(p, queues, data, ws, t - 1);
      ConsumedStep(p, queues, RegistersAt(p, data, ws, t - 1), ws[t - 1], HistoryAt(p, data, ws, t - 1));
    }
  }

  /** What a stage is about to do for an iteration that the sequential proc can run is what that does, and its ports let it. */
  lemma NowMatches(p: Proc, queues: seq<seq<seq<Value>>>, rows: seq<seq<Firing>>, r: Registers, w: Ports, h: History, n: nat)
    requires AreRows(p, queues, rows) && Fits(p, r, w) && Traced(p, r, h) && ConsumedFrom(p, queues, h)
    requires Supplies(p, queues, h, w) && SendsReady(p, r, w) && n < |p.stages| && StageValid(p, r, n) && |h.log[n]| < |rows|
    ensures Now(p, r, w, n) == rows[|h.log[n]|][n] && Served(p, r, w, n)
  {
    hide Received, Taken, LinkTraced, NextItem, Threaded;
    var f, k := Now(p, r, w, n), |h.log[n]|;
    NowSees(p, r, w, h, n);
    NowIsGated(p, r, w, n);
    assert StageTraced(p, r, h, n);
    assert h.log[n][..k] == h.log[n];
    NowTakesNext(p, queues, r, w, h, n);
    FiringMatches(p, queues, rows, r, h, n, k, f);
    forall m | 0 <= m < k
      ensures h.log[n][m] == rows[m][n]
    {
      LogMatches(p, queues, rows, r, h, n, m);
    }
    assert h.log[n] == Column(rows, n)[..k];
    assert RowIs(p, queues, rows, k, n);
    NextIsSupplied(p, queues, w, h, n, f);
  }

  lemma NowTakesNext(p: Proc, queues: seq<seq<seq<Value>>>, r: Registers, w: Ports, h: History, n: nat)
    requires Suit(p, queues) && Fits(p, r, w) && HistoryFits(p, h) && n < |p.stages| && Supplies(p, queues, h, w)
    requires InputsTraced(p.stages[n], h.log[n], h.consumed[n])
    ensures LogFits(p.stages[n], h.log[n]) && |Now(p, r, w, n).received| == |p.stages[n].receives|
    ensures TakesNext(p, queues, h, n, |h.log[n]|, Now(p, r, w, n))
  {
    hide Taken;
    NowIsGated(p, r, w, n);
    assert h.log[n][..|h.log[n]|] == h.log[n];
  }

  lemma NextIsSupplied(p: Proc, queues: seq<seq<seq<Value>>>, w: Ports, h: History, n: nat, f: Firing)
    requires Suit(p, queues) && HistoryFits(p, h) && PortsFit(p, w) && n < |p.stages| && Supplies(p, queues, h, w)
    requires InputsTraced(p.stages[n], h.log[n], h.consumed[n]) && |f.received| == |p.stages[n].receives|
    requires forall i | 0 <= i < |p.stages[n].receives| && Active(p.stages[n], f, i) ::
               NextItem(p.stages[n], h.log[n], queues[n], i) == Some(f.received[i])
    ensures forall i | 0 <= i < |p.stages[n].receives| && Active(p.stages[n], f, i) :: w.valid[n][i]
  {
    hide Active, Taken;
  }

  /** Nothing after stage `n` is in the way of an iteration that the sequential proc can run. */
  lemma {:induction false} OpenInTurn(p: Proc, queues: seq<seq<seq<Value>>>, rows: seq<seq<Firing>>,
                                      r: Registers, w: Ports, h: History, n: nat)
    requires AreRows(p, queues, rows) && Fits(p, r, w) && Traced(p, r, h) && ConsumedFrom(p, queues, h)
    requires Supplies(p, queues, h, w) && SendsReady(p, r, w) && n < |p.stages| && |h.log[n]| <= |rows|
    ensures NextStageOpen(p, r, w, n)
    decreases |p.stages| - n
  {
    hide Done, AreRows, ConsumedFrom, Supplies, SendsReady, StageTraced, Served, Unhindered;
    if n < |p.stages| - 1 && StageValid(p, r, n + 1) {
      assert LinkTraced(p, r, h, n);
      OpenInTurn(p, queues, rows, r, w, h, n + 1);
      NowMatches(p, queues, rows, r, w, h, n + 1);
      ServedIsUnhindered(p, r, w, n + 1);
      DoneExactly(p, r, w, n + 1);
    }
  }

  lemma FiresInTurn(p: Proc, queues: seq<seq<seq<Value>>>, rows: seq<seq<Firing>>, r: Registers, w: Ports, h: History, n: nat)
    requires AreRows(p, queues, rows) && Fits(p, r, w) && Traced(p, r, h) && ConsumedFrom(p, queues, h)
    requires Supplies(p, queues, h, w) && SendsReady(p, r, w) && n < |p.stages| && |h.log[n]| < |rows| && StageValid(p, r, n)
    ensures Fires(p, r, w, n)
  {
    hide Done, AreRows, ConsumedFrom, Supplies, SendsReady, Traced, Served, Unhindered;
    OpenInTurn(p, queues, rows, r, w, h, n);
    NowMatches(p, queues, rows, r, w, h, n);
    ServedIsUnhindered(p, r, w, n);
    DoneExactly(p, r, w, n);
  }

  /** In every cycle the stages are at most as many iterations behind as there are stages before them. */
  lemma {:induction false} Advances(p: Proc, queues: seq<seq<seq<Value>>>, rows: seq<seq<Firing>>, data: seq<Value>,
                                    ws: seq<Ports>, n: nat, u: nat)
    requires IsRun(p, data, ws) && AreRows(p, queues, rows) && SuppliedRun(p, queues, data, ws) && n < |p.stages| && u <= |ws|
    ensures |rows| <= |HistoryAt(p, data, ws, u).log[n]| || u <= |HistoryAt(p, data, ws, u).log[n]| + n
    decreases u
  {
    hide RegistersAt, HistoryAt, SuppliedRun, RowIs, ConsumedFrom, Supplies, SendsReady, Traced, Fires;
    if u == 0 {
      return;
    }
    Advances(p, queues, rows, data, ws, n, u - 1);
    LogGrows(p, data, ws, n, u - 1);
    var r, h := RegistersAt(p, data, ws, u - 1), HistoryAt(p, data, ws, u - 1);
    if |h.log[n]| < |rows| && u > |h.log[n]| + n {
      EveryRunIsTraced(p, data, ws, u - 1);
      RunConsumesFrom(p, queues, data, ws, u - 1);
      SuppliedNow(p, queues, data, ws, u - 1);
      if n > 0 {
        Advances(p, queues, rows, data, ws, n - 1, u - 1);
        ValidWhenAhead(p, r, h, n);
      }
      FiresInTurn(p, queues, rows, r, ws[u - 1], h, n);
    }
  }

  lemma LogGrows(p: Proc, data: seq<Value>, ws: seq<Ports>, n: nat, t: nat)
    requires IsRun(p, data, ws) && n < |p.stages| && t < |ws|
    ensures |HistoryAt(p, data, ws, t + 1).log[n]|
         == |HistoryAt(p, data, ws, t).log[n]| + if Fires(p, RegistersAt(p, data, ws, t), ws[t], n) then 1 else 0
  {
    hide Fires, Now, Consumed, Delivered, RegistersAt;
  }

  lemma ValidWhenAhead(p: Proc, r: Registers, h: History, n: nat)
    requires Traced(p, r, h) && 0 < n < |p.stages| && |h.log[n]| < |h.log[n - 1]|
    ensures StageValid(p, r, n)
  {
    assert LinkTraced(p, r, h, n - 1);
  }

  /** If the sequential proc can run `k` iterations on the queues that the ports supply, and active sends are ready, then
      after `k + n` cycles stage `n` has made them, each as the sequential proc does. */
  lemma PipelineDoesWhatProcCan(p: Proc, queues: seq<seq<seq<Value>>>, k: nat, data: seq<Value>, ws: seq<Ports>, n: nat, u: nat)
    requires IsRun(p, data, ws) && Suit(p, queues) && Iterate(p, k, Machine(p.init, queues)).Some?
    requires SuppliedRun(p, queues, data, ws) && n < |p.stages| && k + n <= u <= |ws|
    ensures var rows, log := Iterate(p, k, Machine(p.init, queues)).value.1, HistoryAt(p, data, ws, u).log[n];
            k <= |log| && forall i | 0 <= i < k :: log[i] == rows[i][n]
  {
    hide Iterate, RowIs, StageAt, SuppliedRun, HistoryAt, RegistersAt, Traced, ConsumedFrom;
    IterateIs(p, k, queues);
    var rows := Iterate(p, k, Machine(p.init, queues)).value.1;
    Advances(p, queues, rows, data, ws, n, u);
    EveryRunIsTraced(p, data, ws, u);
    RunConsumesFrom(p, queues, data, ws, u);
    forall i | 0 <= i < k
      ensures HistoryAt(p, data, ws, u).log[n][i] == rows[i][n]
    {
      LogMatches(p, queues, rows, RegistersAt(p, data, ws, u), HistoryAt(p, data, ws, u), n, i);
    }
  }
}
