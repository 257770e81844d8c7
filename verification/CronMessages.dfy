/** What the ticks of a run send for a job, and in which order. */
module CronMessages {
  import opened Chains
  import opened CronSpec

  // ----- The content of a job

  /** Only the due time and the count of a job ever change. */
  predicate SameContent(a: Job, b: Job) {
    a.message == b.message && a.data == b.data && a.period == b.period
  }

  lemma {:induction false} TicksKeepContent(job: Job, clock: uint32, step: uint32, n: nat)
    ensures var left := AfterTicks(job, clock, step, n);
            left.Some? ==> SameContent(left.value, job)
    decreases n
  {
    if n > 0 && AfterTick(job, clock, step).Some? {
      TicksKeepContent(AfterTick(job, clock, step).value, Plus(clock, step), step, n - 1);
    }
  }

  lemma DueCellsFrom<N>(jobs: seq<Cell<N, Job>>, now: uint32)
    ensures forall p :: 0 <= p < |DueCells(jobs, now)| ==> DueCells(jobs, now)[p] in jobs
  {
  }

  lemma OneCell<N>(jobs: seq<Cell<N, Job>>, x: N, job: Job, cell: Cell<N, Job>)
    requires Distinct(jobs) && Contains(jobs, x, job) && cell in jobs && cell.node == x
    ensures cell.data == job
  {
  }

  /** The messages of the next tick that are sent for a node carry the content of this job. */
  ghost predicate SendsContent<N>(t: Table<N>, step: uint32, x: N, job: Job) {
    var (due, sent) := (DueCells(t.jobs, Plus(t.clock, step)), Messages(t.jobs, Plus(t.clock, step)));
    |sent| == |due| && forall p :: 0 <= p < |due| && due[p].node == x ==> sent[p] == Message(job.message, job.data)
  }

  /** As long as the node is in the table, its job has the content of this one. */
  ghost predicate HoldsContent<N>(t: Table<N>, x: N, job: Job) {
    forall i :: 0 <= i < |t.jobs| && t.jobs[i].node == x ==> SameContent(t.jobs[i].data, job)
  }

  lemma ContentSent<N>(t: Table<N>, step: uint32, x: N, job: Job)
    requires HoldsContent(t, x, job)
    ensures SendsContent(t, step, x, job)
  {
    DueCellsFrom(t.jobs, Plus(t.clock, step));
  }

  lemma TrackedHolds<N>(t: Table<N>, x: N, tracked: Option<Job>, job: Job)
    requires Distinct(t.jobs) && Tracks(t, x, tracked) && (tracked.Some? ==> SameContent(tracked.value, job))
    ensures HoldsContent(t, x, job)
  {
    forall i | 0 <= i < |t.jobs| && t.jobs[i].node == x
      ensures SameContent(t.jobs[i].data, job)
    {
      assert Nodes(t.jobs)[i] == x;
      OneCell(t.jobs, x, tracked.value, t.jobs[i]);
    }
  }

  /**
   * Over a whole run from the addition: the scheduled ticks, and no others,
   * send a message for the node, each sends exactly one, and that carries the
   * name and the data of the job that was added. While the node is in the
   * table its job keeps name, data and period.
   */
  lemma SendsWhatWasAdded<N>(t: Table<N>, x: N, job: Job, after: Table<N>, step: uint32, ops: seq<Op<N>>)
    requires Distinct(t.jobs) && x !in Nodes(t.jobs) && after == Step(t, Add(x, job))
    requires RunAllowed(after, ops) && forall i :: 0 <= i < |ops| ==> LeavesAlone(ops[i], step, x, job.message)
    ensures var (end, d, p) := (Run(after, ops), Until(0, step, Plus(job.timestamp, 1)), Again(job, step));
            && (Scheduled(job.repetitions, d, p, Ticks(ops) + 1) <==>
                x in Nodes(DueCells(end.jobs, Plus(end.clock, step))))
            && SendsContent(end, step, x, job) && HoldsContent(end, x, job)
            && Distinct(DueCells(end.jobs, Plus(end.clock, step)))
  {
    CronSchedule(t, x, job, after, step, ops);
    AddedJob(t, x, job, step);
    var timed := Timed(t.clock, job);
    hide Run, Ticks, Scheduled, Until, Again, Contains, Nodes, RunAllowed, AfterTicks, Distinct, LeavesAlone, Step,
         SendsContent, HoldsContent, DueCells, Messages;
    RunTracks(after, ops, x, Some(timed), step, job.message);
    TicksKeepContent(timed, after.clock, step, Ticks(ops));
    TrackedHolds(Run(after, ops), x, AfterTicks(timed, after.clock, step, Ticks(ops)), job);
    ContentSent(Run(after, ops), step, x, job);
    DueCellsDistinct(Run(after, ops).jobs, Plus(Run(after, ops).clock, step));
  }

  lemma {:induction false} DueCellsDistinct<N>(jobs: seq<Cell<N, Job>>, now: uint32)
    requires Distinct(jobs)
    ensures Distinct(DueCells(jobs, now))
  {
    if jobs != [] {
      var rest := DueCells(jobs[1..], now);
      DueCellsDistinct(jobs[1..], now);
      if Due(jobs[0].data, now) {
        DueNodes(jobs[1..], now, jobs[0].node);
        assert jobs[0].node !in Nodes(rest);
        DistinctCons(jobs[0], rest);
      }
    }
  }

  // ----- The order of jobs

  /** y is among the nodes, and x behind it. */
  ghost predicate Precedes<N>(nodes: seq<N>, y: N, x: N) {
    nodes != [] && if nodes[0] == y then x in nodes[1..] else Precedes(nodes[1..], y, x)
  }

  lemma {:induction false} AppendKeepsOrder<N>(nodes: seq<N>, y: N, x: N, z: N)
    ensures Precedes(nodes, y, x) ==> Precedes(nodes + [z], y, x)
    ensures y in nodes && z == x ==> Precedes(nodes + [z], y, x)
  {
    if nodes != [] {
      assert (nodes + [z])[1..] == nodes[1..] + [z];
      AppendKeepsOrder(nodes[1..], y, x, z);
    }
  }

  lemma NodesCons<N, T>(s: seq<Cell<N, T>>)
    requires s != []
    ensures Nodes(s) == [s[0].node] + Nodes(s[1..])
  {
  }

  lemma {:induction false} BothIn<N>(nodes: seq<N>, y: N, x: N)
    requires Precedes(nodes, y, x)
    ensures y in nodes && x in nodes
  {
    if nodes[0] != y {
      BothIn(nodes[1..], y, x);
    }
  }

  lemma HeadOnce<N, T>(s: seq<Cell<N, T>>)
    requires s != [] && Distinct(s)
    ensures s[0].node !in Nodes(s[1..]) && Distinct(s[1..])
  {
    assert forall i :: 0 <= i < |s[1..]| ==> s[1..][i] == s[i + 1] && Nodes(s[1..])[i] == s[i + 1].node;
  }

  /** Taking nodes out keeps the order of the others. */
  lemma {:induction false} SurvivorsKeepOrder<N, T>(s: seq<Cell<N, T>>, behindDead: bool, dead: T -> bool,
          update: T -> T, y: N, x: N)
    requires Distinct(s) && Precedes(Nodes(s), y, x)
    requires var left := Nodes(Survivors(s, behindDead, dead, update)); y in left && x in left
    ensures Precedes(Nodes(Survivors(s, behindDead, dead, update)), y, x)
  {
    var rest := Survivors(s[1..], dead(s[0].data), dead, update);
    var left := Survivors(s, behindDead, dead, update);
    NodesCons(s);
    HeadOnce(s);
    SurvivorsDistinct(s[1..], dead(s[0].data), dead, update);
    if !dead(s[0].data) {
      assert left[0].node == s[0].node && left[1..] == rest;
      NodesCons(left);
    }
    if s[0].node != y {
      BothIn(Nodes(s[1..]), y, x);
      SurvivorsKeepOrder(s[1..], dead(s[0].data), dead, update, y, x);
    }
  }

  lemma {:induction false} DueKeepOrder<N>(jobs: seq<Cell<N, Job>>, now: uint32, y: N, x: N)
    requires Distinct(jobs) && Precedes(Nodes(jobs), y, x)
    requires var due := Nodes(DueCells(jobs, now)); y in due && x in due
    ensures Precedes(Nodes(DueCells(jobs, now)), y, x)
  {
    var rest := DueCells(jobs[1..], now);
    var due := DueCells(jobs, now);
    NodesCons(jobs);
    HeadOnce(jobs);
    if Due(jobs[0].data, now) {
      assert due[0].node == jobs[0].node && due[1..] == rest;
      NodesCons(due);
    } else {
      assert due == rest;
      DueNodes(jobs[1..], now, y);
      assert forall i :: 0 <= i < |jobs[1..]| ==> Nodes(jobs[1..])[i] == jobs[1..][i].node;
    }
    if jobs[0].node != y {
      BothIn(Nodes(jobs[1..]), y, x);
      DueKeepOrder(jobs[1..], now, y, x);
    }
  }

  /** Neither node is added again. */
  predicate AddsNeither<N(==)>(op: Op<N>, y: N, x: N) {
    op.Add? ==> op.node != y && op.node != x
  }

  lemma SurvivorsOnly<N>(t: Table<N>, op: Op<N>) returns (dead: Job -> bool, update: Job -> Job)
    requires Distinct(t.jobs) && Allowed(t, op) && !op.Add?
    ensures Step(t, op).jobs == Survivors(t.jobs, false, dead, update)
  {
    match op
    case Tick(step) =>
      var now := Plus(t.clock, step);
      dead, update := ExpiresAt(now), FireAt(now);
      SweepExactly(t.jobs, dead, update);
    case Delete(name) =>
      dead, update := OtherName(name), Unchanged();
      DeletionIsSweep(t.jobs, dead);
  }

  /** One step adds neither node, and keeps their order if it keeps both. */
  lemma StepKeepsOrder<N>(t: Table<N>, op: Op<N>, y: N, x: N)
    requires Distinct(t.jobs) && Allowed(t, op) && AddsNeither(op, y, x)
    ensures Distinct(Step(t, op).jobs)
    ensures y in Nodes(Step(t, op).jobs) ==> y in Nodes(t.jobs)
    ensures x in Nodes(Step(t, op).jobs) ==> x in Nodes(t.jobs)
    ensures Precedes(Nodes(t.jobs), y, x) && y in Nodes(Step(t, op).jobs) && x in Nodes(Step(t, op).jobs) ==>
              Precedes(Nodes(Step(t, op).jobs), y, x)
  {
    var after := Step(t, op).jobs;
    if op.Add? {
      var timed := Timed(t.clock, op.job);
      JoinAddsOne(t.jobs, op.node, timed);
      AppendedNodes(t.jobs, op.node, timed);
      AppendKeepsOrder(Nodes(t.jobs), y, x, op.node);
    } else {
      var dead, update := SurvivorsOnly(t, op);
      SurvivorsDistinct(t.jobs, false, dead, update);
      hide Step, Survivors, Distinct, Nodes;
      if Precedes(Nodes(t.jobs), y, x) && y in Nodes(after) && x in Nodes(after) {
        SurvivorsKeepOrder(t.jobs, false, dead, update, y, x);
      }
    }
  }

  lemma AppendedNodes<N, T>(s: seq<Cell<N, T>>, node: N, data: T)
    ensures Nodes(Join(s, [Cell(node, data, false)])) == Nodes(s) + [node]
  {
  }

  lemma {:induction false} RunKeepsOrder<N>(t: Table<N>, ops: seq<Op<N>>, y: N, x: N)
    requires Distinct(t.jobs) && RunAllowed(t, ops) && forall i :: 0 <= i < |ops| ==> AddsNeither(ops[i], y, x)
    ensures Distinct(Run(t, ops).jobs)
    ensures y in Nodes(Run(t, ops).jobs) ==> y in Nodes(t.jobs)
    ensures x in Nodes(Run(t, ops).jobs) ==> x in Nodes(t.jobs)
    ensures Precedes(Nodes(t.jobs), y, x) && y in Nodes(Run(t, ops).jobs) && x in Nodes(Run(t, ops).jobs) ==>
              Precedes(Nodes(Run(t, ops).jobs), y, x)
    decreases |ops|
  {
    hide Step, Nodes, Distinct, Allowed, Precedes;
    if ops != [] {
      StepKeepsOrder(t, ops[0], y, x);
      RunKeepsOrder(Step(t, ops[0]), ops[1..], y, x);
    }
  }

  /** Of two jobs that are due on the same tick of any run, the one that was added earlier is sent first. */
  lemma SentInOrderOfAddition<N>(t: Table<N>, y: N, x: N, job: Job, ops: seq<Op<N>>, step: uint32)
    requires Distinct(t.jobs) && y in Nodes(t.jobs) && x !in Nodes(t.jobs)
    requires RunAllowed(Step(t, Add(x, job)), ops) && forall i :: 0 <= i < |ops| ==> AddsNeither(ops[i], y, x)
    ensures var end := Run(Step(t, Add(x, job)), ops);
            SendsNext(end, step, y) && SendsNext(end, step, x) ==>
              Precedes(Nodes(DueCells(end.jobs, Plus(end.clock, step))), y, x)
  {
    var after := Step(t, Add(x, job));
    var timed := Timed(t.clock, job);
    JoinAddsOne(t.jobs, x, timed);
    AppendedNodes(t.jobs, x, timed);
    AppendKeepsOrder(Nodes(t.jobs), y, x, x);
    assert Precedes(Nodes(after.jobs), y, x);
    hide Step, Run, Nodes, Distinct, Precedes, DueCells, RunAllowed, AddsNeither;
    RunKeepsOrder(after, ops, y, x);
    var end := Run(after, ops);
    if SendsNext(end, step, y) && SendsNext(end, step, x) {
      DueAreJobs(end.jobs, Plus(end.clock, step), y);
      DueAreJobs(end.jobs, Plus(end.clock, step), x);
      DueKeepOrder(end.jobs, Plus(end.clock, step), y, x);
    }
  }

  lemma DueAreJobs<N>(jobs: seq<Cell<N, Job>>, now: uint32, x: N)
    requires x in Nodes(DueCells(jobs, now))
    ensures x in Nodes(jobs)
  {
    DueNodes(jobs, now, x);
    assert forall i :: 0 <= i < |jobs| ==> Nodes(jobs)[i] == jobs[i].node;
  }
}
