/** The 16-slot log channel between one producer and its consumer, as steps that interleave in
    any order (backend/pkg/datasource/mock/logs.go).  Lines are known by their number. */
module LogBuffer {

  const SLOTS: nat := 16

  /** Where the producer stands: waiting for the tick, offering the new line, about to drop the
      oldest, offering again, or stopped with the channel closed. */
  datatype Producer = Idle | Offering | Dropping | Retrying | Stopped

  /** `made` lines were generated so far; `lost` collects lines given up by the last branch. */
  datatype State = State(
    made: nat, producer: Producer, buffer: seq<int>, received: seq<int>, dropped: seq<int>, lost: seq<int>)

  datatype Step = Tick | Offer | Drop | Retry | Cancel | Receive

  const START := State(0, Idle, [], [], [], [])

  predicate Enabled(s: State, step: Step) {
    match step
    case Tick => s.producer == Idle
    case Offer => s.producer == Offering
    case Drop => s.producer == Dropping
    case Retry => s.producer == Retrying
    case Cancel => s.producer == Idle
    case Receive => s.buffer != []
  }

  function Take(s: State, step: Step): State
    requires Enabled(s, step)
  {
    match step
    case Tick => s.(made := s.made + 1, producer := Offering)
    case Offer =>
      if |s.buffer| < SLOTS then s.(buffer := s.buffer + [s.made - 1], producer := Idle)
      else s.(producer := Dropping)
    case Drop =>
      if s.buffer != [] then s.(buffer := s.buffer[1..], dropped := s.dropped + [s.buffer[0]], producer := Retrying)
      else s.(producer := Retrying)
    case Retry =>
      if |s.buffer| < SLOTS then s.(buffer := s.buffer + [s.made - 1], producer := Idle)
      else s.(lost := s.lost + [s.made - 1], producer := Idle)
    case Cancel => s.(producer := Stopped)
    case Receive => s.(buffer := s.buffer[1..], received := s.received + [s.buffer[0]])
  }

  predicate LegalRun(steps: seq<Step>)
    decreases |steps|, 0
  {
    steps == [] || (LegalRun(steps[..|steps| - 1]) && Enabled(Run(steps[..|steps| - 1]), steps[|steps| - 1]))
  }

  function Run(steps: seq<Step>): State
    requires LegalRun(steps)
    decreases |steps|, 1
  {
    if steps == [] then START else Take(Run(steps[..|steps| - 1]), steps[|steps| - 1])
  }

  /** The lines the producer is done with: all of them, but for the one it is still offering. */
  function Offered(s: State): int {
    if s.producer == Idle || s.producer == Stopped then s.made else s.made - 1
  }

  predicate Ascending(s: seq<int>) {
    forall i, j :: 0 <= i < j < |s| ==> s[i] < s[j]
  }

  predicate Below(s: seq<int>, n: int) {
    forall i :: 0 <= i < |s| ==> 0 <= s[i] < n
  }

  /** The buffer is the stretch of lines from `first` on. */
  predicate Contiguous(buffer: seq<int>, first: int) {
    forall i :: 0 <= i < |buffer| ==> buffer[i] == first + i
  }

  predicate Inv(s: State) {
    && |s.buffer| <= SLOTS && s.lost == []
    && (s.producer == Retrying ==> |s.buffer| < SLOTS)
    && 0 <= Offered(s) - |s.buffer|
    && Contiguous(s.buffer, Offered(s) - |s.buffer|)
    && Ascending(s.received) && Below(s.received, Offered(s) - |s.buffer|)
    && Ascending(s.dropped) && Below(s.dropped, Offered(s) - |s.buffer|)
    && |s.received| + |s.dropped| == Offered(s) - |s.buffer|
    && (forall x :: x in s.received ==> x !in s.dropped)
  }

  /** Taking the head keeps the rest contiguous, and the head is above all taken before. */
  lemma HeadTaken(buffer: seq<int>, first: int, taken: seq<int>)
    requires buffer != [] && first >= 0 && Contiguous(buffer, first) && Ascending(taken) && Below(taken, first)
    ensures Contiguous(buffer[1..], first + 1)
    ensures Ascending(taken + [buffer[0]]) && Below(taken + [buffer[0]], first + 1) && buffer[0] == first
  {
  }

  lemma StepKeepsInv(s: State, step: Step)
    requires Inv(s) && Enabled(s, step)
    ensures Inv(Take(s, step))
  {
    var t := Take(s, step);
    if (step == Receive || step == Drop) && s.buffer != [] {
      HeadTaken(s.buffer, Offered(s) - |s.buffer|, if step == Receive then s.received else s.dropped);
      assert s.buffer[0] == Offered(s) - |s.buffer|;
      assert s.buffer[0] !in s.received && s.buffer[0] !in s.dropped;
    }
  }

  lemma {:induction false} RunsKeepInv(steps: seq<Step>)
    requires LegalRun(steps)
    ensures Inv(Run(steps))
  {
    if steps != [] {
      RunsKeepInv(steps[..|steps| - 1]);
      StepKeepsInv(Run(steps[..|steps| - 1]), steps[|steps| - 1]);
    }
  }

  /** In every interleaving, between ticks: the buffer is the newest stretch of the lines made,
      at most 16 long; no line was ever given up at the last branch; what the consumer received
      is in the order made; and every older line was either received or dropped, once. */
  lemma BetweenTicks(steps: seq<Step>)
    requires LegalRun(steps) && Run(steps).producer == Idle
    ensures var s := Run(steps);
      && |s.buffer| <= 16 && |s.buffer| <= s.made
      && s.buffer == seq(|s.buffer|, i => s.made - |s.buffer| + i)
      && s.lost == []
      && Ascending(s.received) && Ascending(s.dropped)
      && (forall n :: 0 <= n < s.made - |s.buffer| <==> n in s.received || n in s.dropped)
      && (forall n :: n in s.received ==> n !in s.dropped)
  {
    RunsKeepInv(steps);
    var s := Run(steps);
    TakenIsEverything(s.received, s.dropped, s.made - |s.buffer|);
  }

  function Elements(s: seq<int>): set<int> {
    set x | x in s
  }

  lemma {:induction false} AscendingCount(s: seq<int>)
    requires Ascending(s)
    ensures |Elements(s)| == |s|
  {
    if s != [] {
      var u, x := s[..|s| - 1], s[|s| - 1];
      AscendingCount(u);
      assert s == u + [x];
      assert Elements(s) == Elements(u) + {x};
      assert x !in Elements(u);
    }
  }

  function Numbers(n: nat): (r: set<int>)
    ensures forall x :: x in r <==> 0 <= x < n
    ensures |r| == n
  {
    if n == 0 then {} else Numbers(n - 1) + {n - 1}
  }

  lemma SameSize(a: set<int>, b: set<int>)
    requires a <= b && |a| == |b|
    ensures a == b
  {
    assert b == a + (b - a);
    assert |b| == |a| + |b - a|;
  }

  lemma TakenIsEverything(received: seq<int>, dropped: seq<int>, n: int)
    requires n >= 0 && Ascending(received) && Ascending(dropped) && Below(received, n) && Below(dropped, n)
    requires |received| + |dropped| == n && forall x :: x in received ==> x !in dropped
    ensures forall x :: 0 <= x < n <==> x in received || x in dropped
  {
    AscendingCount(received);
    AscendingCount(dropped);
    assert Elements(received) !! Elements(dropped);
    assert |Elements(received) + Elements(dropped)| == n;
    SameSize(Elements(received) + Elements(dropped), Numbers(n));
    forall x ensures 0 <= x < n <==> x in received || x in dropped {
      assert x in Numbers(n) <==> x in Elements(received) + Elements(dropped);
    }
  }

  /** An offer finds no room exactly when 16 lines wait, and then the newest 16 before it do. */
  lemma FullAtSixteen(steps: seq<Step>)
    requires LegalRun(steps) && Run(steps).producer == Offering
    ensures var s, t := Run(steps), Take(Run(steps), Offer);
      && (t.producer == Dropping <==> |s.buffer| == 16)
      && (t.producer == Dropping ==> t.buffer == s.buffer == seq(16, i => s.made - 17 + i))
      && (t.producer != Dropping ==> t.producer == Idle && t.buffer == s.buffer + [s.made - 1])
  {
    RunsKeepInv(steps);
  }

  /** The second offer always finds room, so the newest line is always put in. */
  lemma RetryAlwaysEnqueues(steps: seq<Step>)
    requires LegalRun(steps) && Run(steps).producer == Retrying
    ensures var s, t := Run(steps), Take(Run(steps), Retry);
      t.buffer == s.buffer + [s.made - 1] && t.lost == s.lost
  {
    RunsKeepInv(steps);
  }

  /** Every offer found room. */
  predicate NeverFull(steps: seq<Step>)
    requires LegalRun(steps)
  {
    steps == [] ||
    (&& NeverFull(steps[..|steps| - 1])
     && (steps[|steps| - 1] == Offer ==> |Run(steps[..|steps| - 1]).buffer| < 16))
  }

  /** A consumer that keeps up loses nothing: it has received every line but those waiting. */
  lemma {:induction false} KeepingUpLosesNothing(steps: seq<Step>)
    requires LegalRun(steps) && NeverFull(steps)
    ensures Run(steps).dropped == [] && Run(steps).producer != Dropping && Run(steps).producer != Retrying
    ensures Contiguous(Run(steps).received, 0)
    ensures |Run(steps).received| == Offered(Run(steps)) - |Run(steps).buffer|
  {
    if steps != [] {
      RunsKeepInv(steps[..|steps| - 1]);
      KeepingUpLosesNothing(steps[..|steps| - 1]);
    }
  }
}
