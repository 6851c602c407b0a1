/** The websocket capacity gate: handlers check, upgrade, count themselves in, serve and leave,
    each a separate atomic step (backend/pkg/api/ws.go, shared with backend/pkg/api/logs.go). */
module WsGate {

  const MAX: int := 100

  /** `pending` handlers are past the check and not yet counted; `peak` is the most there ever
      were at once. */
  datatype Gate = Gate(counter: int, pending: set<nat>, serving: set<nat>, peak: nat)

  datatype Step = Check(h: nat) | Fail(h: nat) | Count(h: nat) | Release(h: nat)

  const START := Gate(0, {}, {}, 0)

  predicate Enabled(g: Gate, step: Step) {
    match step
    case Check(h) => h !in g.pending && h !in g.serving
    case Fail(h) => h in g.pending
    case Count(h) => h in g.pending
    case Release(h) => h in g.serving
  }

  /** A check at the cap turns the handler away and changes nothing. */
  function Take(g: Gate, step: Step): Gate {
    match step
    case Check(h) =>
      if g.counter >= MAX then g
      else
        var pending := g.pending + {h};
        g.(pending := pending, peak := if |pending| > g.peak then |pending| else g.peak)
    case Fail(h) => g.(pending := g.pending - {h})
    case Count(h) => g.(pending := g.pending - {h}, serving := g.serving + {h}, counter := g.counter + 1)
    case Release(h) => g.(serving := g.serving - {h}, counter := g.counter - 1)
  }

  function Run(steps: seq<Step>): Gate {
    if steps == [] then START else Take(Run(steps[..|steps| - 1]), steps[|steps| - 1])
  }

  predicate Legal(steps: seq<Step>) {
    steps == [] || (Legal(steps[..|steps| - 1]) && Enabled(Run(steps[..|steps| - 1]), steps[|steps| - 1]))
  }

  predicate Inv(g: Gate) {
    && g.counter == |g.serving|
    && g.pending !! g.serving
    && |g.pending| <= g.peak
    && (g.peak > 0 ==> g.counter + |g.pending| <= MAX - 1 + g.peak)
    && (g.peak == 0 ==> g.counter == 0)
  }

  lemma StepKeepsInv(g: Gate, step: Step)
    requires Inv(g) && Enabled(g, step)
    ensures Inv(Take(g, step))
  {
    match step
    case Check(h) => OneMore(g.pending, h);
    case Fail(h) => OneLess(g.pending, h);
    case Count(h) =>
      OneLess(g.pending, h);
      OneMore(g.serving, h);
    case Release(h) => OneLess(g.serving, h);
  }

  lemma OneMore(s: set<nat>, h: nat)
    requires h !in s
    ensures |s + {h}| == |s| + 1
  {
  }

  lemma OneLess(s: set<nat>, h: nat)
    requires h in s
    ensures |s - {h}| == |s| - 1
  {
  }

  /** In every interleaving the counter is the number of connections served, never negative,
      and at most 99 plus the most handlers that were at once past the check and not counted. */
  lemma {:induction false} RunsAreBounded(steps: seq<Step>)
    requires Legal(steps)
    ensures Inv(Run(steps))
    ensures 0 <= Run(steps).counter == |Run(steps).serving|
    ensures Run(steps).counter <= 99 + Run(steps).peak
  {
    if steps != [] {
      RunsAreBounded(steps[..|steps| - 1]);
      StepKeepsInv(Run(steps[..|steps| - 1]), steps[|steps| - 1]);
    }
  }

  datatype Phase = Away | Passed | Served

  /** Where a handler stands: past the check once it found less than 100 connections, until it
      fails; served once it counted itself in, until it leaves. */
  function PhaseOf(steps: seq<Step>, h: nat): Phase {
    if steps == [] then Away
    else
      var before, step := steps[..|steps| - 1], steps[|steps| - 1];
      if step.h != h then PhaseOf(before, h)
      else match step
           case Check(_) => if Run(before).counter < 100 then Passed else Away
           case Fail(_) => Away
           case Count(_) => Served
           case Release(_) => Away
  }

  /** The two sets say where each handler stands. */
  lemma {:induction false} HandlersStand(steps: seq<Step>)
    requires Legal(steps)
    ensures forall h :: h in Run(steps).pending <==> PhaseOf(steps, h) == Passed
    ensures forall h :: h in Run(steps).serving <==> PhaseOf(steps, h) == Served
  {
    if steps != [] {
      var u, step := steps[..|steps| - 1], steps[|steps| - 1];
      HandlersStand(u);
      RunsAreBounded(u);
      forall h
        ensures h in Run(steps).pending <==> PhaseOf(steps, h) == Passed
        ensures h in Run(steps).serving <==> PhaseOf(steps, h) == Served {
        HandlerStands(u, step, h);
      }
      assert steps == u + [step];
    }
  }

  lemma HandlerStands(u: seq<Step>, step: Step, h: nat)
    requires Legal(u) && Enabled(Run(u), step) && Run(u).pending !! Run(u).serving
    requires h in Run(u).pending <==> PhaseOf(u, h) == Passed
    requires h in Run(u).serving <==> PhaseOf(u, h) == Served
    ensures h in Run(u + [step]).pending <==> PhaseOf(u + [step], h) == Passed
    ensures h in Run(u + [step]).serving <==> PhaseOf(u + [step], h) == Served
  {
    assert (u + [step])[..|u|] == u;
  }

  /** How many handlers stood between the check and the count after `n` steps. */
  function PendingAfter(steps: seq<Step>, n: nat): nat
    requires n <= |steps|
  {
    |Run(steps[..n]).pending|
  }

  lemma PeakStep(g: Gate, step: Step)
    requires Inv(g) && Enabled(g, step)
    ensures var t := Take(g, step);
      g.peak <= t.peak && |t.pending| <= t.peak && (t.peak == g.peak || t.peak == |t.pending|)
  {
    StepKeepsInv(g, step);
  }

  lemma SameStart(u: seq<Step>, steps: seq<Step>, n: nat)
    requires u <= steps && n <= |u|
    ensures PendingAfter(steps, n) == PendingAfter(u, n)
  {
    assert steps[..n] == u[..n];
  }

  /** The peak is the most there ever were. */
  lemma {:induction false} PeakIsMost(steps: seq<Step>)
    requires Legal(steps)
    ensures forall n: nat :: n <= |steps| ==> PendingAfter(steps, n) <= Run(steps).peak
    ensures exists n: nat :: n <= |steps| && PendingAfter(steps, n) == Run(steps).peak
  {
    assert steps[..|steps|] == steps;
    if steps == [] {
      assert PendingAfter(steps, 0) == 0;
    } else {
      var u, step := steps[..|steps| - 1], steps[|steps| - 1];
      PeakIsMost(u);
      RunsAreBounded(u);
      PeakStep(Run(u), step);
      forall n: nat | n <= |u| ensures PendingAfter(steps, n) == PendingAfter(u, n) {
        SameStart(u, steps, n);
      }
      var m: nat :| m <= |u| && PendingAfter(u, m) == Run(u).peak;
      assert PendingAfter(steps, m) == Run(u).peak;
      assert PendingAfter(steps, |steps|) == |Run(steps).pending|;
    }
  }

  lemma RunOne(steps: seq<Step>, step: Step)
    ensures Run(steps + [step]) == Take(Run(steps), step)
    ensures Legal(steps + [step]) <==> Legal(steps) && Enabled(Run(steps), step)
  {
    assert (steps + [step])[..|steps|] == steps;
  }

  /** The handlers numbered from `lo` up to but not `hi`. */
  function UpTo(lo: nat, hi: nat): set<nat> {
    set x: nat | lo <= x < hi && Between(lo, x, hi)
  }

  predicate Between(lo: nat, x: nat, hi: nat) {
    lo <= x < hi
  }

  lemma {:induction false} UpToCount(lo: nat, hi: nat)
    requires lo <= hi
    ensures |UpTo(lo, hi)| == hi - lo
  {
    if lo < hi {
      UpToCount(lo, hi - 1);
      OneMore(UpTo(lo, hi - 1), hi - 1);
      assert UpTo(lo, hi) == UpTo(lo, hi - 1) + {hi - 1};
    }
  }

  /** The next handler in line passes the check. */
  lemma CheckNext(steps: seq<Step>, c: int, lo: nat, hi: nat, serving: set<nat>, peak: nat)
    requires Legal(steps) && c < MAX && lo <= hi && hi !in serving
    requires Run(steps) == Gate(c, UpTo(lo, hi), serving, peak)
    ensures Legal(steps + [Check(hi)])
    ensures Run(steps + [Check(hi)]) ==
        Gate(c, UpTo(lo, hi + 1), serving, if hi + 1 - lo > peak then hi + 1 - lo else peak)
  {
    RunOne(steps, Check(hi));
    UpToCount(lo, hi + 1);
    assert UpTo(lo, hi) + {hi} == UpTo(lo, hi + 1);
  }

  /** The first handler in line counts itself in. */
  lemma CountNext(steps: seq<Step>, c: int, mid: nat, hi: nat, peak: nat)
    requires Legal(steps) && mid < hi
    requires Run(steps) == Gate(c, UpTo(mid, hi), UpTo(0, mid), peak)
    ensures Legal(steps + [Count(mid)])
    ensures Run(steps + [Count(mid)]) == Gate(c + 1, UpTo(mid + 1, hi), UpTo(0, mid + 1), peak)
  {
    RunOne(steps, Count(mid));
    UpToShift(mid, hi);
  }

  lemma UpToShift(mid: nat, hi: nat)
    requires mid < hi
    ensures mid in UpTo(mid, hi)
    ensures UpTo(mid, hi) - {mid} == UpTo(mid + 1, hi)
    ensures UpTo(0, mid) + {mid} == UpTo(0, mid + 1)
  {
  }

  /** One handler after the other, up to 99 of them. */
  lemma {:induction false} OneByOne(n: nat) returns (steps: seq<Step>)
    requires n < MAX
    ensures Legal(steps) && Run(steps) == Gate(n, UpTo(n, n), UpTo(0, n), if n == 0 then 0 else 1)
  {
    steps := [];
    assert UpTo(n, n) == {};
    if n > 0 {
      var before := OneByOne(n - 1);
      var peak := if n == 1 then 0 else 1;
      CheckNext(before, n - 1, n - 1, n - 1, UpTo(0, n - 1), peak);
      CountNext(before + [Check(n - 1)], n - 1, n - 1, n, 1);
      steps := before + [Check(n - 1)] + [Count(n - 1)];
    }
  }

  /** Then `m` handlers pass the check while the counter stands at 99. */
  lemma {:induction false} AllPass(m: nat) returns (steps: seq<Step>)
    ensures Legal(steps)
    ensures Run(steps) == Gate(99, UpTo(99, 99 + m), UpTo(0, 99), if m > 1 then m else 1)
  {
    if m == 0 {
      steps := OneByOne(99);
    } else {
      var before := AllPass(m - 1);
      CheckNext(before, 99, 99, 98 + m, UpTo(0, 99), if m - 1 > 1 then m - 1 else 1);
      steps := before + [Check(98 + m)];
    }
  }

  /** And all of them count themselves in. */
  lemma {:induction false} AllCount(m: nat, k: nat) returns (steps: seq<Step>)
    requires k <= m
    ensures Legal(steps)
    ensures Run(steps) == Gate(99 + k, UpTo(99 + k, 99 + m), UpTo(0, 99 + k), if m > 1 then m else 1)
  {
    if k == 0 {
      steps := AllPass(m);
    } else {
      var before := AllCount(m, k - 1);
      CountNext(before, 98 + k, 98 + k, 99 + m, if m > 1 then m else 1);
      steps := before + [Count(98 + k)];
    }
  }

  /** The bound is reached, for every number of handlers in between. */
  lemma BoundIsReached(m: nat) returns (steps: seq<Step>)
    requires m > 0
    ensures Legal(steps) && Run(steps).peak == m && Run(steps).counter == 99 + m
  {
    steps := AllCount(m, m);
  }

  /** Runs with at most `m` handlers in between never pass the cap. */
  ghost predicate CapHolds(m: nat) {
    forall steps :: Legal(steps) && Run(steps).peak <= m ==> Run(steps).counter <= 100
  }

  /** The cap of 100 is a real cap exactly when no two handlers are ever in between at once. */
  lemma CapHoldsIffOneAtATime(m: nat)
    ensures CapHolds(m) <==> m <= 1
  {
    if m <= 1 {
      forall steps | Legal(steps) && Run(steps).peak <= m ensures Run(steps).counter <= 100 {
        RunsAreBounded(steps);
      }
    } else {
      var steps := BoundIsReached(m);
      assert Legal(steps) && Run(steps).peak <= m && Run(steps).counter > 100;
    }
  }
}
