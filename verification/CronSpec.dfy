/** The cron table as a value: jobs, clock, one step of each operation, and the schedule of a job over a run. */
module CronSpec {
  import opened Chains

  const TWO32 := 0x1_0000_0000
  type uint32 = x: int | 0 <= x < TWO32
  type int32 = x: int | -0x8000_0000 <= x < 0x8000_0000

  datatype Job = Job(timestamp: uint32, period: uint32, repetitions: int32, message: string, data: string)

  datatype Message = Message(id: string, tail: string)

  /** Unsigned 32-bit addition and subtraction, with wrap-around. */
  function Plus(a: uint32, b: uint32): uint32 {
    if a + b < TWO32 then a + b else a + b - TWO32
  }

  function Minus(a: uint32, b: uint32): uint32 {
    if a >= b then a - b else a - b + TWO32
  }

  lemma WrapsAround(a: uint32, b: uint32)
    ensures Plus(a, b) == (a + b) % TWO32 && Minus(a, b) == (a - b) % TWO32
  {
  }

  /** An unsigned 32-bit value read as a signed one. */
  function AsSigned(x: uint32): int32 {
    if x < 0x8000_0000 then x else x - TWO32
  }

  function JobSort(a: Job, b: Job): int {
    AsSigned(Minus(b.timestamp, a.timestamp))
  }

  /** The comparator of del_cronjob: one on equal names, zero on different ones. */
  function JobEqual(a: Job, b: Job): int {
    if a.message == b.message then 1 else 0
  }

  predicate Due(job: Job, now: uint32) {
    job.timestamp == now
  }

  /** Is due for the last time. */
  predicate Expires(job: Job, now: uint32) {
    Due(job, now) && (job.repetitions == 0 || job.repetitions == 1)
  }

  function Fire(job: Job, now: uint32): Job {
    if Due(job, now) then
      job.(timestamp := Plus(job.timestamp, job.period),
           repetitions := if job.repetitions > 0 then job.repetitions - 1 else job.repetitions)
    else job
  }

  function ExpiresAt(now: uint32): Job -> bool {
    (job: Job) => Expires(job, now)
  }

  function FireAt(now: uint32): Job -> Job {
    (job: Job) => Fire(job, now)
  }

  function OtherName(name: string): Job -> bool {
    (job: Job) => job.message != name
  }

  function Unchanged(): Job -> Job {
    (job: Job) => job
  }

  /** What a tick sends: one message per due job, in table order. */
  function Messages<N>(jobs: seq<Cell<N, Job>>, now: uint32): seq<Message> {
    if jobs == [] then []
    else
      var first := jobs[0].data;
      (if Due(first, now) then [Message(first.message, first.data)] else []) + Messages(jobs[1..], now)
  }

  // ----- The table and its operations

  datatype Table<N> = Table(clock: uint32, jobs: seq<Cell<N, Job>>)

  datatype Op<N> = Tick(step: uint32) | Add(node: N, job: Job) | Delete(name: string)

  function Step<N>(t: Table<N>, op: Op<N>): Table<N> {
    match op
    case Tick(step) =>
      var now := Plus(t.clock, step);
      Table(now, Sweep([], t.jobs, ExpiresAt(now), FireAt(now)))
    case Add(node, job) =>
      t.(jobs := Join(t.jobs, [Cell(node, Timed(t.clock, job), false)]))
    case Delete(name) =>
      t.(jobs := Deletions(t.jobs, OtherName(name)))
  }

  /** A new job counts its offset from the tick after the current one. */
  function Timed(clock: uint32, job: Job): Job {
    job.(timestamp := Plus(job.timestamp, Plus(clock, 1)))
  }

  /** Additions use a node that is not in the table, removals never cut the chain. */
  ghost predicate Allowed<N>(t: Table<N>, op: Op<N>) {
    match op
    case Tick(step) => Safe(t.jobs, ExpiresAt(Plus(t.clock, step)))
    case Add(node, job) => node !in Nodes(t.jobs)
    case Delete(name) => Safe(t.jobs, OtherName(name))
  }

  function Run<N>(t: Table<N>, ops: seq<Op<N>>): Table<N>
    decreases |ops|
  {
    if ops == [] then t else Run(Step(t, ops[0]), ops[1..])
  }

  ghost predicate RunAllowed<N>(t: Table<N>, ops: seq<Op<N>>)
    decreases |ops|
  {
    ops == [] || (Allowed(t, ops[0]) && RunAllowed(Step(t, ops[0]), ops[1..]))
  }

  function Ticks<N>(ops: seq<Op<N>>): nat {
    if ops == [] then 0 else (if ops[0].Tick? then 1 else 0) + Ticks(ops[1..])
  }

  // ----- A single job, tick by tick, on a clock that moves by the same step each time

  datatype Option<T> = None | Some(value: T)

  function AfterTick(job: Job, clock: uint32, step: uint32): Option<Job> {
    var now := Plus(clock, step);
    if Expires(job, now) then None else Some(Fire(job, now))
  }

  /** The job after n ticks of the clock, or None once it has left the table. */
  function AfterTicks(job: Job, clock: uint32, step: uint32, n: nat): Option<Job>
    decreases n
  {
    if n == 0 then Some(job)
    else
      match AfterTick(job, clock, step)
      case None => None
      case Some(next) => AfterTicks(next, Plus(clock, step), step, n - 1)
  }

  function ClockAfter(clock: uint32, step: uint32, n: nat): uint32
    decreases n
  {
    if n == 0 then clock else ClockAfter(Plus(clock, step), step, n - 1)
  }

  lemma {:induction false} ClockAfterWraps(clock: uint32, step: uint32, n: nat)
    ensures ClockAfter(clock, step, n) == (clock + n * step) % TWO32
    decreases n
  {
    if n > 0 {
      ClockAfterWraps(Plus(clock, step), step, n - 1);
      assert n * step == (n - 1) * step + step;
    }
  }

  /** The job is sent on the tick that follows n others. */
  predicate SentAfter(job: Job, clock: uint32, step: uint32, n: nat) {
    var before := AfterTicks(job, clock, step, n);
    before.Some? && Due(before.value, ClockAfter(clock, step, n + 1))
  }

  // ----- How long a clock takes to show a given time

  datatype Wait = Never | In(ticks: nat)

  /** The n-th tick is the first to show this time. */
  ghost predicate FirstShows(clock: uint32, step: uint32, time: uint32, n: nat) {
    n >= 1 && ClockAfter(clock, step, n) == time && forall m :: 1 <= m < n ==> ClockAfter(clock, step, m) != time
  }

  /** Ticks until the clock shows this time, at least one. */
  ghost function Until(clock: uint32, step: uint32, time: uint32): Wait {
    if exists n :: FirstShows(clock, step, time, n) then
      var n :| FirstShows(clock, step, time, n);
      In(n)
    else Never
  }

  lemma FirstShowsOnce(clock: uint32, step: uint32, time: uint32, n: nat)
    requires FirstShows(clock, step, time, n)
    ensures Until(clock, step, time) == In(n)
  {
  }

  lemma {:induction false} ShownHasFirst(clock: uint32, step: uint32, time: uint32, n: nat)
    requires n >= 1 && ClockAfter(clock, step, n) == time
    ensures exists m: nat :: m <= n && FirstShows(clock, step, time, m)
    decreases n
  {
    if m: nat :| 1 <= m < n && ClockAfter(clock, step, m) == time {
      ShownHasFirst(clock, step, time, m);
    } else {
      assert FirstShows(clock, step, time, n);
    }
  }

  /** A time is shown after n ticks, n least, by n * step modulo 2^32; or no number of ticks shows it. */
  lemma UntilExactly(clock: uint32, step: uint32, time: uint32)
    ensures var w := Until(clock, step, time);
            && (w.In? ==> w.ticks >= 1 && (clock + w.ticks * step) % TWO32 == time)
            && (forall n: nat :: n >= 1 && (w.In? ==> n < w.ticks) ==> (clock + n * step) % TWO32 != time)
  {
    var w := Until(clock, step, time);
    if w.In? {
      ClockAfterWraps(clock, step, w.ticks);
    }
    forall n: nat | n >= 1 && (w.In? ==> n < w.ticks)
      ensures (clock + n * step) % TWO32 != time
    {
      ClockAfterWraps(clock, step, n);
      if ClockAfter(clock, step, n) == time {
        ShownHasFirst(clock, step, time, n);
      }
    }
  }

  lemma {:induction false} ClockAfterMoved(clock: uint32, step: uint32, shift: uint32, n: nat)
    ensures ClockAfter(Plus(clock, shift), step, n) == Plus(ClockAfter(clock, step, n), shift)
    decreases n
  {
    if n > 0 {
      assert Plus(Plus(clock, shift), step) == Plus(Plus(clock, step), shift);
      ClockAfterMoved(Plus(clock, step), step, shift, n - 1);
    }
  }

  /** Only the distance from the clock matters. */
  lemma UntilMoved(clock: uint32, step: uint32, time: uint32, shift: uint32)
    ensures Until(Plus(clock, shift), step, Plus(time, shift)) == Until(clock, step, time)
  {
    var here, there := Until(clock, step, time), Until(Plus(clock, shift), step, Plus(time, shift));
    forall n: nat
      ensures ClockAfter(clock, step, n) == time <==> ClockAfter(Plus(clock, shift), step, n) == Plus(time, shift)
    {
      ClockAfterMoved(clock, step, shift, n);
    }
    if here.In? {
      assert FirstShows(Plus(clock, shift), step, Plus(time, shift), here.ticks);
      FirstShowsOnce(Plus(clock, shift), step, Plus(time, shift), here.ticks);
    } else if there.In? {
      assert FirstShows(clock, step, time, there.ticks);
    }
  }

  /** The wait shrinks with each tick that does not end it. */
  lemma UntilShrinks(clock: uint32, step: uint32, time: uint32)
    ensures Until(clock, step, time) == In(1) <==> Plus(clock, step) == time
    ensures Until(clock, step, time).In? ==> Until(clock, step, time).ticks >= 1
    ensures Plus(clock, step) != time ==> Until(Plus(clock, step), step, time) == OneLess(Until(clock, step, time))
  {
    var now := Plus(clock, step);
    if now == time {
      assert ClockAfter(clock, step, 1) == time;
      FirstShowsOnce(clock, step, time, 1);
    } else {
      var here, there := Until(clock, step, time), Until(now, step, time);
      assert ClockAfter(clock, step, 1) != time;
      if there.In? {
        UntilOneMore(clock, step, time, there.ticks);
      } else if here.In? {
        forall m | 1 <= m < here.ticks - 1
          ensures ClockAfter(now, step, m) != time
        {
          assert ClockAfter(clock, step, m + 1) != time;
        }
        assert FirstShows(now, step, time, here.ticks - 1);
      }
    }
  }

  lemma UntilOneMore(clock: uint32, step: uint32, time: uint32, n: nat)
    requires Plus(clock, step) != time && FirstShows(Plus(clock, step), step, time, n)
    ensures Until(clock, step, time) == In(n + 1)
  {
    forall m | 1 <= m < n + 1
      ensures ClockAfter(clock, step, m) != time
    {
      if m > 1 {
        assert ClockAfter(Plus(clock, step), step, m - 1) != time;
      }
    }
    FirstShowsOnce(clock, step, time, n + 1);
  }

  function OneLess(w: Wait): Wait {
    if w.In? && w.ticks > 0 then In(w.ticks - 1) else w
  }

  lemma MultipleShown(step: uint32, time: uint32, n: nat, m: nat)
    requires time > 0 && time == n * step && m <= n
    ensures ClockAfter(0, step, m) == time <==> m == n
  {
    ClockAfterWraps(0, step, m);
    assert time == m * step + (n - m) * step;
    assert m < n ==> (n - m) * step > 0;
  }

  /** A time ahead of zero that is a multiple of the step is reached without wrapping. */
  lemma UntilMultiple(step: uint32, time: uint32, n: nat)
    requires time > 0 && time == n * step
    ensures Until(0, step, time) == In(n)
  {
    forall m: nat | m <= n
      ensures ClockAfter(0, step, m) == time <==> m == n
    {
      MultipleShown(step, time, n, m);
    }
    FirstShowsOnce(0, step, time, n);
  }

  /** With step one every time is reached, zero after the clock has gone all the way round. */
  lemma UntilStepOne(time: uint32)
    ensures Until(0, 1, time) == In(if time == 0 then TWO32 else time)
  {
    if time > 0 {
      UntilMultiple(1, time, time);
    } else {
      forall m: nat | m <= TWO32
        ensures ClockAfter(0, 1, m) == if m == TWO32 then 0 else m
      {
        ClockAfterWraps(0, 1, m);
      }
      FirstShowsOnce(0, 1, 0, TWO32);
    }
  }

  // ----- The schedule of a job

  /** Firing number j is granted: none or one repetition means once, a negative count means forever. */
  predicate Granted(repetitions: int, j: int) {
    j >= 0 && (repetitions < 0 || j == 0 || j < repetitions)
  }

  /** Firing number j is the last one. */
  predicate LastFiring(repetitions: int, j: int) {
    Granted(repetitions, j) && !Granted(repetitions, j + 1)
  }

  /** Firing number j comes after n ticks, the first one after a wait of d and each later one after a wait of p. */
  predicate FallsOn(d: Wait, p: Wait, j: int, n: int) {
    d.In? && (j == 0 || p.In?) && n == d.ticks + if j == 0 then 0 else j * p.ticks
  }

  ghost predicate Scheduled(repetitions: int, d: Wait, p: Wait, n: int) {
    exists j :: Granted(repetitions, j) && FallsOn(d, p, j, n)
  }

  ghost predicate Over(repetitions: int, d: Wait, p: Wait, n: int) {
    exists j, last :: LastFiring(repetitions, j) && FallsOn(d, p, j, last) && last <= n
  }

  /** The wait from one firing to the next; a period of zero takes the clock back to the same time. */
  ghost function Again(job: Job, step: uint32): (p: Wait)
    ensures p.In? ==> p.ticks >= 1
  {
    UntilShrinks(0, step, job.period);
    Until(0, step, job.period)
  }

  lemma WaitCounts(job: Job, clock: uint32, step: uint32)
    ensures var (now, d) := (Plus(clock, step), Until(clock, step, job.timestamp));
            && (d.In? ==> d.ticks >= 1)
            && (Due(job, now) <==> d == In(1))
            && (d != In(1) ==> Until(now, step, job.timestamp) == OneLess(d))
            && (d == In(1) ==> Until(now, step, Fire(job, now).timestamp) == Again(job, step))
  {
    var now := Plus(clock, step);
    UntilShrinks(clock, step, job.timestamp);
    UntilMoved(0, step, job.period, now);
  }

  lemma MultipleOfPeriod(j: int, p: int)
    requires j >= 1 && p >= 1
    ensures j * p >= p
    ensures (j - 1) * p + p == j * p
  {
  }

  /** What is left of the count after a firing. */
  function Remaining(repetitions: int): int {
    if repetitions > 0 then repetitions - 1 else repetitions
  }

  /** One firing, with one tick taken off the front of the schedule. */
  lemma FiringShifts(d: Wait, p: Wait, rest: Wait, shift: int, j: int, m: int)
    requires (d.In? ==> d.ticks >= 1) && (p.In? ==> p.ticks >= 1) && j >= shift
    requires if d == In(1) then rest == p && shift == 1 else rest == OneLess(d) && shift == 0
    ensures FallsOn(d, p, j, m) <==> FallsOn(rest, p, j - shift, m - 1)
  {
  }

  /** The schedule with one tick taken off the front. */
  lemma ScheduleShifts(repetitions: int, d: Wait, p: Wait, n: nat)
    requires (d.In? ==> d.ticks >= 1) && (p.In? ==> p.ticks >= 1) && n > 0
    requires d == In(1) ==> !(repetitions == 0 || repetitions == 1)
    ensures var rest := if d == In(1) then p else OneLess(d);
            var left := if d == In(1) then Remaining(repetitions) else repetitions;
            && (Scheduled(repetitions, d, p, n + 1) <==> Scheduled(left, rest, p, n))
            && (Over(repetitions, d, p, n) <==> Over(left, rest, p, n - 1))
  {
    var rest := if d == In(1) then p else OneLess(d);
    var left := if d == In(1) then Remaining(repetitions) else repetitions;
    var shift := if d == In(1) then 1 else 0;
    forall j, m | j >= shift
      ensures FallsOn(d, p, j, m) <==> FallsOn(rest, p, j - shift, m - 1)
    {
      FiringShifts(d, p, rest, shift, j, m);
    }
    hide FallsOn;
    if Scheduled(repetitions, d, p, n + 1) {
      var j :| Granted(repetitions, j) && FallsOn(d, p, j, n + 1);
      NotFirst(d, p, j, n + 1);
      assert FallsOn(rest, p, j - shift, n);
    }
    if Scheduled(left, rest, p, n) {
      var j :| Granted(left, j) && FallsOn(rest, p, j, n);
      assert FallsOn(d, p, j + shift, n + 1);
    }
    if Over(repetitions, d, p, n) {
      var j, last :| LastFiring(repetitions, j) && FallsOn(d, p, j, last) && last <= n;
      assert FallsOn(rest, p, j - shift, last - 1) && LastFiring(left, j - shift);
    }
    if Over(left, rest, p, n - 1) {
      var j, last :| LastFiring(left, j) && FallsOn(rest, p, j, last) && last <= n - 1;
      assert FallsOn(d, p, j + shift, last + 1) && LastFiring(repetitions, j + shift);
    }
  }

  lemma NotFirst(d: Wait, p: Wait, j: int, n: int)
    requires FallsOn(d, p, j, n) && n > 1
    ensures d == In(1) ==> j != 0
  {
  }

  /** A job that fires once is over with that firing. */
  lemma OnlyFiring(repetitions: int, p: Wait, n: int)
    requires (repetitions == 0 || repetitions == 1) && n > 0
    ensures Over(repetitions, In(1), p, n) && !Scheduled(repetitions, In(1), p, n + 1)
  {
    assert LastFiring(repetitions, 0) && FallsOn(In(1), p, 0, 1);
  }

  /** No firing comes before the first one. */
  lemma FirstFiring(repetitions: int, d: Wait, p: Wait)
    requires (d.In? ==> d.ticks >= 1) && (p.In? ==> p.ticks >= 1)
    ensures Scheduled(repetitions, d, p, 1) <==> d == In(1)
    ensures !Over(repetitions, d, p, 0)
  {
    forall j, m | Granted(repetitions, j) && FallsOn(d, p, j, m)
      ensures m >= d.ticks && (j > 0 ==> m > d.ticks)
    {
      if j > 0 {
        MultipleOfPeriod(j, p.ticks);
      }
    }
    assert d == In(1) ==> Granted(repetitions, 0) && FallsOn(d, p, 0, 1);
  }

  /**
   * The whole life of a job on a clock that wraps: it is sent on exactly the
   * ticks d, d + p, d + 2p, ... that its count grants, and leaves the table
   * with the last of them. Either wait may be infinite.
   */
  lemma {:induction false} LifeOfAJob(job: Job, clock: uint32, step: uint32, n: nat)
    ensures var (d, p) := (Until(clock, step, job.timestamp), Again(job, step));
            && (SentAfter(job, clock, step, n) <==> Scheduled(job.repetitions, d, p, n + 1))
            && (AfterTicks(job, clock, step, n).Some? <==> !Over(job.repetitions, d, p, n))
    decreases n
  {
    hide Until, Again, Scheduled, Over;
    var d, p := Until(clock, step, job.timestamp), Again(job, step);
    WaitCounts(job, clock, step);
    FirstFiring(job.repetitions, d, p);
    if n > 0 {
      var now := Plus(clock, step);
      if !Expires(job, now) {
        var next := Fire(job, now);
        SamePeriod(job, next, step);
        ScheduleShifts(job.repetitions, d, p, n);
        LifeOfAJob(next, now, step, n - 1);
        assert SentAfter(job, clock, step, n) <==> SentAfter(next, now, step, n - 1);
        assert next.repetitions == if d == In(1) then Remaining(job.repetitions) else job.repetitions;
        assert Until(now, step, next.timestamp) == if d == In(1) then p else OneLess(d);
      } else {
        OnlyFiring(job.repetitions, p, n);
      }
    }
  }

  lemma SamePeriod(a: Job, b: Job, step: uint32)
    requires a.period == b.period
    ensures Again(a, step) == Again(b, step)
  {
  }

  // ----- A job in the table, over a whole run

  /** The jobs a tick sends, in table order. */
  function DueCells<N>(jobs: seq<Cell<N, Job>>, now: uint32): (r: seq<Cell<N, Job>>)
    ensures |r| == |Messages(jobs, now)|
    ensures forall i :: 0 <= i < |r| ==> Messages(jobs, now)[i] == Message(r[i].data.message, r[i].data.data)
  {
    if jobs == [] then [] else (if Due(jobs[0].data, now) then [jobs[0]] else []) + DueCells(jobs[1..], now)
  }

  /** The node stands in the table with this job, or not at all. */
  ghost predicate Tracks<N>(t: Table<N>, x: N, job: Option<Job>) {
    match job
    case None => x !in Nodes(t.jobs)
    case Some(j) => Contains(t.jobs, x, j)
  }

  /** Ticks of one step, additions of other jobs and deletions that keep this name. */
  predicate LeavesAlone<N(==)>(op: Op<N>, step: uint32, x: N, name: string) {
    match op
    case Tick(s) => s == step
    case Add(node, job) => node != x
    case Delete(other) => other == name
  }

  /** A safe pass keeps a node that is not dead, updated, and drops one that is. */
  lemma SafePass<N, T>(s: seq<Cell<N, T>>, dead: T -> bool, update: T -> T, x: N)
    requires Distinct(s) && Safe(s, dead)
    ensures Distinct(Sweep([], s, dead, update))
    ensures forall data :: Contains(s, x, data) && !dead(data) ==> Contains(Sweep([], s, dead, update), x, update(data))
    ensures forall data :: Contains(s, x, data) && dead(data) ==> x !in Nodes(Sweep([], s, dead, update))
    ensures x !in Nodes(s) ==> x !in Nodes(Sweep([], s, dead, update))
  {
    SweepExactly(s, dead, update);
    SurvivorsDistinct(s, false, dead, update);
    forall data | Contains(s, x, data) && !dead(data)
      ensures Contains(Survivors(s, false, dead, update), x, update(data))
    {
      SurvivorsContain(s, false, dead, update, x, update(data));
    }
  }

  /** On a safe table, removing match after match leaves what one pass leaves. */
  lemma DeletionIsSweep<N>(jobs: seq<Cell<N, Job>>, dead: Job -> bool)
    requires Distinct(jobs) && Safe(jobs, dead)
    ensures Deletions(jobs, dead) == Survivors(jobs, false, dead, Unchanged())
    ensures Deletions(jobs, dead) == Sweep([], jobs, dead, Unchanged())
  {
    DeletionsExactly(jobs, dead, Unchanged());
    SweepExactly(jobs, dead, Unchanged());
  }

  /** A deletion that does not cut the chain leaves exactly the jobs that have the given name. */
  lemma DeletionKeepsNamed<N>(t: Table<N>, name: string, x: N, job: Job)
    requires Distinct(t.jobs) && Allowed(t, Delete(name))
    ensures Contains(Step(t, Delete(name)).jobs, x, job) <==> Contains(t.jobs, x, job) && job.message == name
  {
    DeletionIsSweep(t.jobs, OtherName(name));
    SurvivorsContain(t.jobs, false, OtherName(name), Unchanged(), x, job);
  }

  /** The jobs of the given name are gone and all others are left, as the comment on del_cronjob has it. */
  ghost predicate DeletesNamed<N>(before: seq<Cell<N, Job>>, after: seq<Cell<N, Job>>, name: string) {
    && (forall i :: 0 <= i < |after| ==>
          Contains(before, after[i].node, after[i].data) && after[i].data.message != name)
    && (forall i :: 0 <= i < |before| && before[i].data.message != name ==>
          Contains(after, before[i].node, before[i].data))
  }

  /** A deletion, also one that cuts the chain, does what its comment says only on the empty table. */
  lemma DeletesNamedExactly<N>(t: Table<N>, name: string)
    requires Distinct(t.jobs)
    ensures DeletesNamed(t.jobs, Step(t, Delete(name)).jobs, name) <==> t.jobs == []
  {
    if t.jobs != [] {
      FirstJob(t.jobs, OtherName(name));
      hide Distinct, Deletions;
    }
  }

  /** The first job stays if it is not to go, and goes if it is. */
  lemma FirstJob<N>(jobs: seq<Cell<N, Job>>, dead: Job -> bool)
    requires Distinct(jobs) && jobs != []
    ensures var left := Deletions(jobs, dead);
            if dead(jobs[0].data) then !Contains(left, jobs[0].node, jobs[0].data) else left != [] && left[0] == jobs[0]
  {
    hide Deletions, Distinct, RemoveAt, Members;
    if dead(jobs[0].data) {
      var left := Deletions(jobs, dead);
      DeletionsUnfold(jobs, dead);
      RemoveKeepsDistinct(jobs, 0);
      DeletionsPart(RemoveAt(jobs, 0), dead);
      MembersWithout(jobs, 0);
      MembersHold(left);
    } else {
      FirstStays(jobs, dead);
    }
  }

  lemma MembersHold<N>(jobs: seq<Cell<N, Job>>)
    ensures forall i :: 0 <= i < |jobs| ==> jobs[i].node in Members(jobs)
  {
    assert forall i :: 0 <= i < |jobs| ==> Nodes(jobs)[i] == jobs[i].node;
  }

  lemma {:induction false} FirstStays<N>(jobs: seq<Cell<N, Job>>, dead: Job -> bool)
    requires jobs != [] && !dead(jobs[0].data)
    ensures Deletions(jobs, dead) != [] && Deletions(jobs, dead)[0] == jobs[0]
    decreases |jobs|
  {
    hide Deletions;
    DeletionsUnfold(jobs, dead);
    var i := FirstDeadIndex(jobs, dead);
    if i >= 0 && !Cuts(jobs, i) {
      FirstStays(RemoveAt(jobs, i), dead);
    }
  }

  lemma JoinAddsOne<N, T>(s: seq<Cell<N, T>>, node: N, data: T)
    requires Distinct(s) && node !in Nodes(s)
    ensures var r := Join(s, [Cell(node, data, false)]);
            && Distinct(r) && Contains(r, node, data)
            && (forall x, d :: Contains(s, x, d) ==> Contains(r, x, d))
            && (forall x :: x != node && x !in Nodes(s) ==> x !in Nodes(r))
  {
    var r := Join(s, [Cell(node, data, false)]);
    assert r[|s|].node == node && r[|s|].data == data;
    forall i | 0 <= i < |s|
      ensures r[i] == s[i] && r[i].node != node
    {
      assert Nodes(s)[i] == s[i].node;
    }
    forall x | x in Nodes(r)
      ensures x == node || x in Nodes(s)
    {
      var i :| 0 <= i < |r| && Nodes(r)[i] == x;
      assert i < |s| ==> Nodes(s)[i] == x;
    }
  }

  function After(job: Option<Job>, clock: uint32, step: uint32, n: nat): Option<Job> {
    match job
    case None => None
    case Some(j) => AfterTicks(j, clock, step, n)
  }

  lemma StepTracks<N>(t: Table<N>, op: Op<N>, x: N, job: Option<Job>, step: uint32, name: string)
    requires Distinct(t.jobs) && Allowed(t, op) && LeavesAlone(op, step, x, name)
    requires Tracks(t, x, job) && (job.Some? ==> job.value.message == name)
    ensures Distinct(Step(t, op).jobs)
    ensures Tracks(Step(t, op), x, if op.Tick? then After(job, t.clock, step, 1) else job)
    ensures Step(t, op).clock == if op.Tick? then Plus(t.clock, step) else t.clock
  {
    match op
    case Tick(_) => SafePass(t.jobs, ExpiresAt(Plus(t.clock, step)), FireAt(Plus(t.clock, step)), x);
    case Add(node, added) => JoinAddsOne(t.jobs, node, Timed(t.clock, added));
    case Delete(_) =>
      DeletionIsSweep(t.jobs, OtherName(name));
      SafePass(t.jobs, OtherName(name), Unchanged(), x);
  }

  lemma {:induction false} RunTracks<N>(t: Table<N>, ops: seq<Op<N>>, x: N, job: Option<Job>, step: uint32,
          name: string)
    requires Distinct(t.jobs) && RunAllowed(t, ops) && forall i :: 0 <= i < |ops| ==> LeavesAlone(ops[i], step, x, name)
    requires Tracks(t, x, job) && (job.Some? ==> job.value.message == name)
    ensures Distinct(Run(t, ops).jobs)
    ensures Tracks(Run(t, ops), x, After(job, t.clock, step, Ticks(ops)))
    ensures Run(t, ops).clock == ClockAfter(t.clock, step, Ticks(ops))
    decreases |ops|
  {
    if ops != [] {
      StepTracks(t, ops[0], x, job, step, name);
      var next := if ops[0].Tick? then After(job, t.clock, step, 1) else job;
      RunTracks(Step(t, ops[0]), ops[1..], x, next, step, name);
    }
  }

  lemma {:induction false} ClockAfterOneMore(clock: uint32, step: uint32, n: nat)
    ensures ClockAfter(clock, step, n + 1) == Plus(ClockAfter(clock, step, n), step)
    decreases n
  {
    if n > 0 {
      ClockAfterOneMore(Plus(clock, step), step, n - 1);
    }
  }

  /** The next tick of this step sends the job of this node. */
  ghost predicate SendsNext<N>(t: Table<N>, step: uint32, x: N) {
    x in Nodes(DueCells(t.jobs, Plus(t.clock, step)))
  }

  lemma {:induction false} DueNodes<N>(jobs: seq<Cell<N, Job>>, now: uint32, x: N)
    ensures x in Nodes(DueCells(jobs, now)) <==>
              exists i :: 0 <= i < |jobs| && jobs[i].node == x && Due(jobs[i].data, now)
  {
    if jobs != [] {
      var due := DueCells(jobs, now);
      var rest := DueCells(jobs[1..], now);
      DueNodes(jobs[1..], now, x);
      assert due == if Due(jobs[0].data, now) then [jobs[0]] + rest else rest;
      assert Nodes([jobs[0]] + rest) == [jobs[0].node] + Nodes(rest);
      hide Due, DueCells, Nodes;
      if i :| 0 <= i < |jobs| && jobs[i].node == x && Due(jobs[i].data, now) {
        assert i > 0 ==> jobs[1..][i - 1] == jobs[i];
      }
    }
  }

  /** What tracking a job says about its node. */
  lemma TrackedNode<N>(t: Table<N>, step: uint32, x: N, job: Option<Job>)
    requires Distinct(t.jobs) && Tracks(t, x, job)
    ensures x in Nodes(t.jobs) <==> job.Some?
    ensures SendsNext(t, step, x) <==> job.Some? && Due(job.value, Plus(t.clock, step))
  {
    DueNodes(t.jobs, Plus(t.clock, step), x);
    if job.Some? {
      var i :| 0 <= i < |t.jobs| && t.jobs[i].node == x && t.jobs[i].data == job.value;
      assert Nodes(t.jobs)[i] == x;
      assert forall j :: 0 <= j < |t.jobs| && t.jobs[j].node == x ==> j == i;
      hide Distinct, Due;
    } else {
      assert forall i :: 0 <= i < |t.jobs| ==> Nodes(t.jobs)[i] != x;
    }
  }

  /** Whole-run schedule of a job that is in the table. */
  lemma {:induction false} TableSchedule<N>(t: Table<N>, x: N, job: Job, step: uint32, ops: seq<Op<N>>)
    requires Distinct(t.jobs) && Contains(t.jobs, x, job)
    requires RunAllowed(t, ops) && forall i :: 0 <= i < |ops| ==> LeavesAlone(ops[i], step, x, job.message)
    ensures var (d, p) := (Until(t.clock, step, job.timestamp), Again(job, step));
            && (SendsNext(Run(t, ops), step, x) <==> Scheduled(job.repetitions, d, p, Ticks(ops) + 1))
            && (x in Nodes(Run(t, ops).jobs) <==> !Over(job.repetitions, d, p, Ticks(ops)))
  {
    hide Run, Ticks, SendsNext, Scheduled, Over, Until, Again, Contains, Nodes, RunAllowed, AfterTicks, ClockAfter,
      Distinct, LeavesAlone;
    RunTracks(t, ops, x, Some(job), step, job.message);
    TrackedNode(Run(t, ops), step, x, AfterTicks(job, t.clock, step, Ticks(ops)));
    LifeOfAJob(job, t.clock, step, Ticks(ops));
    ClockAfterOneMore(t.clock, step, Ticks(ops));
  }

  lemma AddedJob<N>(t: Table<N>, x: N, job: Job, step: uint32)
    requires Distinct(t.jobs) && x !in Nodes(t.jobs)
    ensures var after := Step(t, Add(x, job));
            Distinct(after.jobs) && Contains(after.jobs, x, Timed(t.clock, job)) && after.clock == t.clock
    ensures Until(t.clock, step, Timed(t.clock, job).timestamp) == Until(0, step, Plus(job.timestamp, 1))
  {
    JoinAddsOne(t.jobs, x, Timed(t.clock, job));
    UntilMoved(0, step, Plus(job.timestamp, 1), t.clock);
    assert Timed(t.clock, job).timestamp == Plus(Plus(job.timestamp, 1), t.clock);
  }

  /**
   * Whatever else the table goes through, a job added with offset k, period p
   * and count r is sent first when the clock has moved by k + 1, then each
   * time it has moved by p again, modulo 2^32, as often as r grants; and it is
   * in the table until the last of these firings. This is so for every step.
   */
  lemma {:induction false} CronSchedule<N>(t: Table<N>, x: N, job: Job, after: Table<N>, step: uint32, ops: seq<Op<N>>)
    requires Distinct(t.jobs) && x !in Nodes(t.jobs) && after == Step(t, Add(x, job))
    requires RunAllowed(after, ops) && forall i :: 0 <= i < |ops| ==> LeavesAlone(ops[i], step, x, job.message)
    ensures var (d, p) := (Until(0, step, Plus(job.timestamp, 1)), Again(job, step));
            && (SendsNext(Run(after, ops), step, x) <==> Scheduled(job.repetitions, d, p, Ticks(ops) + 1))
            && (x in Nodes(Run(after, ops).jobs) <==> !Over(job.repetitions, d, p, Ticks(ops)))
  {
    AddedJob(t, x, job, step);
    hide Run, Ticks, SendsNext, Scheduled, Over, Until, Again, Contains, RunAllowed, Distinct, LeavesAlone, Step;
    var timed := Timed(t.clock, job);
    SamePeriod(timed, job, step);
    TableSchedule(after, x, timed, step, ops);
  }

  /**
   * With step one: firing number j is on tick k + 1 + j * P, where P is p, or
   * 2^32 when p is zero.
   */
  lemma {:induction false} CronScheduleStepOne<N>(t: Table<N>, x: N, job: Job, after: Table<N>, ops: seq<Op<N>>)
    requires Distinct(t.jobs) && x !in Nodes(t.jobs) && after == Step(t, Add(x, job))
    requires RunAllowed(after, ops) && forall i :: 0 <= i < |ops| ==> LeavesAlone(ops[i], 1, x, job.message)
    ensures SendsNext(Run(after, ops), 1, x) <==>
              exists j :: Granted(job.repetitions, j) && Ticks(ops) + 1 == job.timestamp + 1 + j * Period(job)
    ensures x !in Nodes(Run(after, ops).jobs) <==>
              exists j :: LastFiring(job.repetitions, j) && job.timestamp + 1 + j * Period(job) <= Ticks(ops)
  {
    hide Run, Ticks, SendsNext, Scheduled, Over, Until, Granted, LastFiring, Contains, RunAllowed, Distinct,
      LeavesAlone, Step;
    CronSchedule(t, x, job, after, 1, ops);
    UntilStepOne(Plus(job.timestamp, 1));
    UntilStepOne(job.period);
    StepOneSchedule(job.repetitions, job.timestamp + 1, Period(job), Ticks(ops));
  }

  function Period(job: Job): int {
    if job.period == 0 then TWO32 else job.period
  }

  lemma StepOneSchedule(repetitions: int, d: nat, p: nat, n: int)
    ensures Scheduled(repetitions, In(d), In(p), n + 1) <==> exists j :: Granted(repetitions, j) && n + 1 == d + j * p
    ensures Over(repetitions, In(d), In(p), n) <==> exists j :: LastFiring(repetitions, j) && d + j * p <= n
  {
    forall j
      ensures FallsOn(In(d), In(p), j, d + j * p)
    {
    }
  }
}
