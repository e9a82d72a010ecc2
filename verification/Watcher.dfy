/** The reload pipeline: directory changes, a queue that drops when full, debouncing, and publishing. */
module Watcher {

  const EVENT_QUEUE: nat := 64

  // ----- Debouncing

  /** What one wait on the channel sees: an event, or `quiet` passing without one. The end of the
      sequence is the sender going away. */
  datatype Signal = Event | Quiet

  /** A burst is a run of events no quiet period interrupts; it ends at `i`. */
  predicate BurstEndsAt(signals: seq<Signal>, i: nat) {
    0 < i <= |signals| && signals[i - 1] == Event && (i == |signals| || signals[i] == Quiet)
  }

  predicate Increasing(s: seq<nat>) {
    forall i, j :: 0 <= i < j < |s| ==> s[i] < s[j]
  }

  /** `debounce`: the positions at which `on_settled` is called are exactly the ends of the bursts. */
  method Debounce(signals: seq<Signal>) returns (fired: seq<nat>)
    ensures Increasing(fired) && forall i: nat :: i in fired <==> BurstEndsAt(signals, i)
  {
    fired := [];
    var at: nat := 0;
    while at < |signals|
      invariant at <= |signals| && Increasing(fired)
      invariant forall i: nat :: i in fired <==> BurstEndsAt(signals, i) && i <= at
      invariant at == 0 || signals[at - 1] == Quiet || at == |signals|
    {
      if signals[at] == Quiet {
        // The outer `recv` has no timeout: quiet time outside a burst just passes.
        at := at + 1;
        continue;
      }
      at := at + 1;
      while at < |signals| && signals[at] == Event
        invariant 0 < at <= |signals| && signals[at - 1] == Event
        invariant forall i: nat :: i in fired <==> BurstEndsAt(signals, i) && i < at
      {
        at := at + 1;
      }
      assert BurstEndsAt(signals, at) && forall k :: 0 <= k < |fired| ==> fired[k] in fired;
      fired := fired + [at];
      if at == |signals| {
        return;
      }
      at := at + 1;
    }
  }

  // ----- The pipeline

  /** Where the debouncing task is. A reload begins by reading the sources as of some version. */
  datatype Phase = Idle | Burst | Settled | Read(version: nat)

  /** `dir` counts changes to the sources; `published` is the version the live snapshot was read at.
      `undelivered` notifications are still on their way to the watcher's callback. */
  datatype Pipeline = Pipeline(dir: nat, published: nat, undelivered: nat, queue: nat, phase: Phase)

  datatype Step = Change | Deliver | Receive | QuietPeriod | ReadSources | Publish | ReloadFails

  predicate Enabled(p: Pipeline, s: Step) {
    match s
    case Change => true
    case Deliver => p.undelivered > 0
    case Receive => p.queue > 0 && (p.phase.Idle? || p.phase.Burst?)
    case QuietPeriod => p.queue == 0 && p.phase.Burst?
    case ReadSources => p.phase.Settled?
    case Publish => p.phase.Read?
    case ReloadFails => p.phase.Settled? || p.phase.Read?
  }

  function Next(p: Pipeline, s: Step): Pipeline
    requires Enabled(p, s)
  {
    match s
    case Change => p.(dir := p.dir + 1, undelivered := p.undelivered + 1)
    case Deliver =>
      // try_send drops the notification when the queue is full.
      p.(undelivered := p.undelivered - 1, queue := if p.queue < EVENT_QUEUE then p.queue + 1 else p.queue)
    case Receive => p.(queue := p.queue - 1, phase := Burst)
    case QuietPeriod => p.(phase := Settled)
    case ReadSources => p.(phase := Read(p.dir))
    case Publish => p.(published := p.phase.version, phase := Idle)
    case ReloadFails => p.(phase := Idle)
  }

  predicate CanRun(p: Pipeline, steps: seq<Step>)
    decreases |steps|
  {
    steps == [] || (Enabled(p, steps[0]) && CanRun(Next(p, steps[0]), steps[1..]))
  }

  function Run(p: Pipeline, steps: seq<Step>): Pipeline
    requires CanRun(p, steps)
    decreases |steps|
  {
    if steps == [] then p else Run(Next(p, steps[0]), steps[1..])
  }

  /** Events queue up to 64 and are dropped beyond: `n` deliveries to a task that takes none. */
  lemma {:induction false} QueueHolds(p: Pipeline, n: nat)
    requires p.undelivered >= n && p.queue <= 64
    ensures var steps := seq(n, i => Deliver);
            CanRun(p, steps) && Run(p, steps).queue == if p.queue + n <= 64 then p.queue + n else 64
    decreases n
  {
    if n > 0 {
      assert seq(n, i => Deliver)[1..] == seq(n - 1, i => Deliver);
      QueueHolds(Next(p, Deliver), n - 1);
    }
  }

  /** Something is still on its way that will lead to a reload of the current sources. */
  predicate ReloadComing(p: Pipeline) {
    p.undelivered > 0 || p.queue > 0 || p.phase.Burst? || p.phase.Settled? || p.phase == Read(p.dir)
  }

  predicate NothingLost(p: Pipeline) {
    && p.queue <= EVENT_QUEUE && p.published <= p.dir
    && (p.phase.Read? ==> p.published <= p.phase.version <= p.dir)
    && (p.published == p.dir || ReloadComing(p))
  }

  /** The one step that can lose a change: a reload that fails with nothing behind it. */
  predicate Loses(p: Pipeline, s: Step) {
    s.ReloadFails? && p.published != p.dir && p.undelivered == 0 && p.queue == 0
  }

  lemma StepLosesNothing(p: Pipeline, s: Step)
    requires Enabled(p, s) && NothingLost(p)
    ensures NothingLost(Next(p, s)) <==> !Loses(p, s)
  {
  }

  /** In every run in which reloads succeed, the live snapshot is current or a reload is coming. */
  lemma {:induction false} NoChangeIsLost(p: Pipeline, steps: seq<Step>)
    requires CanRun(p, steps) && NothingLost(p) && ReloadFails !in steps
    ensures NothingLost(Run(p, steps))
    decreases |steps|
  {
    if steps != [] {
      assert steps[0] in steps;
      StepLosesNothing(p, steps[0]);
      NoChangeIsLost(Next(p, steps[0]), steps[1..]);
    }
  }

  /** A reachable loss: one change, delivered, debounced, and its reload fails. The old snapshot stays live,
      and no step is left but a further change. */
  lemma LossIsReachable()
    ensures var start := Pipeline(0, 0, 0, 0, Idle);
            var steps := [Change, Deliver, Receive, QuietPeriod, ReloadFails];
            && NothingLost(start) && CanRun(start, steps)
            && Run(start, steps) == Pipeline(1, 0, 0, 0, Idle) && !NothingLost(Run(start, steps))
            && (forall s :: Enabled(Run(start, steps), s) ==> s == Change)
  {
    hide Run, CanRun;
    var steps := [Change, Deliver, Receive, QuietPeriod, ReloadFails];
    assert steps[1..] == [Deliver, Receive, QuietPeriod, ReloadFails];
    RunStep(Pipeline(0, 0, 0, 0, Idle), steps);
    RunStep(Pipeline(1, 0, 1, 0, Idle), steps[1..]);
    assert steps[1..][1..] == [Receive, QuietPeriod, ReloadFails];
    FailedBurst(1, 0);
  }

  lemma FailedBurst(dir: nat, published: nat)
    ensures var p, steps := Pipeline(dir, published, 0, 1, Idle), [Receive, QuietPeriod, ReloadFails];
            CanRun(p, steps) && Run(p, steps) == Pipeline(dir, published, 0, 0, Idle)
  {
    hide Run, CanRun;
    var steps := [Receive, QuietPeriod, ReloadFails];
    assert steps[1..] == [QuietPeriod, ReloadFails] && steps[1..][1..] == [ReloadFails] && steps[1..][1..][1..] == [];
    RunStep(Pipeline(dir, published, 0, 1, Idle), steps);
    RunStep(Pipeline(dir, published, 0, 0, Burst), steps[1..]);
    RunStep(Pipeline(dir, published, 0, 0, Settled), steps[1..][1..]);
    RunNothing(Pipeline(dir, published, 0, 0, Idle));
  }

  lemma RunNothing(p: Pipeline)
    ensures CanRun(p, []) && Run(p, []) == p
  {
  }

  lemma RunStep(p: Pipeline, steps: seq<Step>)
    requires steps != [] && Enabled(p, steps[0])
    ensures CanRun(p, steps) <==> CanRun(Next(p, steps[0]), steps[1..])
    ensures CanRun(p, steps) ==> Run(p, steps) == Run(Next(p, steps[0]), steps[1..])
  {
  }

  /** Over every run, what is live is what it was, or what the sources were when some reload read them. */
  lemma {:induction false} PublishedWasRead(p: Pipeline, steps: seq<Step>)
    requires CanRun(p, steps)
    ensures Run(p, steps).published == p.published
            || (p.phase.Read? && Run(p, steps).published == p.phase.version)
            || exists k :: 0 <= k < |steps| && WasRead(p, steps, k, Run(p, steps).published)
    decreases |steps|
  {
    if steps != [] {
      var next, rest := Next(p, steps[0]), steps[1..];
      var version := Run(next, rest).published;
      PublishedWasRead(next, rest);
      if k :| 0 <= k < |rest| && WasRead(next, rest, k, version) {
        assert steps[..k + 1][1..] == rest[..k];
        assert WasRead(p, steps, k + 1, version);
      } else if steps[0].ReadSources? && version == p.dir {
        assert steps[..0] == [];
        assert WasRead(p, steps, 0, version);
      }
    }
  }

  /** Step `k` reads the sources, and they are at `version` then. */
  predicate WasRead(p: Pipeline, steps: seq<Step>, k: nat, version: nat) {
    && k < |steps| && steps[k].ReadSources?
    && CanRun(p, steps[..k]) && Run(p, steps[..k]).dir == version
  }

  // ----- And the reload does come

  /** Steps left until the pipeline is idle, if the sources stop changing. */
  function Remaining(p: Pipeline): nat {
    5 * p.undelivered + 4 * p.queue
    + match p.phase { case Idle => 0 case Burst => 3 case Settled => 2 case Read(_) => 1 }
  }

  /** Once changes stop, every step that is not a failure brings the pipeline nearer to rest, some step is
      possible until it is at rest, and at rest the published snapshot is the current directory. */
  lemma Settles(p: Pipeline)
    requires NothingLost(p)
    ensures forall s :: Enabled(p, s) && s != Change && s != ReloadFails ==> Remaining(Next(p, s)) < Remaining(p)
    ensures (forall s :: Enabled(p, s) ==> s == Change || s == ReloadFails) ==> Remaining(p) == 0
    ensures Remaining(p) == 0 ==> p.published == p.dir
  {
    if p.undelivered > 0 {
      assert Enabled(p, Deliver);
    } else if p.phase.Read? {
      assert Enabled(p, Publish);
    } else if p.phase.Settled? {
      assert Enabled(p, ReadSources);
    } else if p.queue > 0 {
      assert Enabled(p, Receive);
    } else if p.phase.Burst? {
      assert Enabled(p, QuietPeriod);
    }
  }
}
