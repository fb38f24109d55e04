/**
  The promise chain that serialises the operations changing site assets. A caller takes the
  current tail as the promise to wait for and makes its own promise the new tail; between any
  two of its steps every other caller may take steps of its own.
 */
module MutationLock {

  type PromiseId = nat

  datatype Phase = Waiting | Running | Done

  datatype Caller = Caller(previous: PromiseId, own: PromiseId, phase: Phase)

  /** `started` records the callers in the order their operations began. */
  datatype Chain = Chain(tail: PromiseId, settled: set<PromiseId>, callers: seq<Caller>, started: seq<nat>)

  datatype Step = Enter | Resume(caller: nat) | Release(caller: nat)

  /** The tail starts out as a settled promise. */
  function Initial(): Chain {
    Chain(0, {0}, [], [])
  }

  predicate Enabled(c: Chain, step: Step) {
    match step
    case Enter => true
    case Resume(k) => k < |c.callers| && c.callers[k].phase == Waiting && c.callers[k].previous in c.settled
    case Release(k) => k < |c.callers| && c.callers[k].phase == Running
  }

  /** An operation that finishes and one that throws both release. */
  function Next(c: Chain, step: Step): Chain
    requires Enabled(c, step)
  {
    match step
    case Enter =>
      var own := |c.callers| + 1;
      c.(tail := own, callers := c.callers + [Caller(c.tail, own, Waiting)])
    case Resume(k) =>
      c.(callers := c.callers[k := c.callers[k].(phase := Running)], started := c.started + [k])
    case Release(k) =>
      c.(callers := c.callers[k := c.callers[k].(phase := Done)], settled := c.settled + {c.callers[k].own})
  }

  ghost predicate IsRun(c: Chain, steps: seq<Step>)
    decreases |steps|
  {
    steps == [] || (Enabled(c, steps[0]) && IsRun(Next(c, steps[0]), steps[1..]))
  }

  function Run(c: Chain, steps: seq<Step>): Chain
    requires IsRun(c, steps)
    decreases |steps|
  {
    if steps == [] then c else Run(Next(c, steps[0]), steps[1..])
  }

  // ----- The invariant -----

  /** Every caller waits for the promise of the caller before it. */
  predicate Linked(c: Chain) {
    && c.tail == |c.callers|
    && forall k :: 0 <= k < |c.callers| ==> c.callers[k].previous == k && c.callers[k].own == k + 1
  }

  /** A promise is settled exactly when it is the first one or its caller is done. */
  ghost predicate SettledByDone(c: Chain) {
    forall p: PromiseId :: p in c.settled <==> p == 0 || (p <= |c.callers| && c.callers[p - 1].phase == Done)
  }

  /** Only done callers stand before a caller that is running or done. */
  predicate InOrder(c: Chain) {
    forall j, k :: 0 <= j < k < |c.callers| && c.callers[k].phase != Waiting ==> c.callers[j].phase == Done
  }

  /** The operations that began are the first ones, in call order. */
  predicate StartedInOrder(c: Chain) {
    && |c.started| <= |c.callers|
    && (forall k :: 0 <= k < |c.started| ==> c.started[k] == k)
    && (forall k :: 0 <= k < |c.callers| ==> (c.callers[k].phase != Waiting <==> k < |c.started|))
  }

  ghost predicate Valid(c: Chain) {
    Linked(c) && SettledByDone(c) && InOrder(c) && StartedInOrder(c)
  }

  lemma StepKeepsValid(c: Chain, step: Step)
    requires Valid(c) && Enabled(c, step)
    ensures Valid(Next(c, step))
  {
    match step {
      case Enter =>
      case Resume(k) => ResumedIsFirst(c, k);
      case Release(k) =>
    }
  }

  /** Whoever may resume is the first that has not started. */
  lemma ResumedIsFirst(c: Chain, k: nat)
    requires Valid(c) && Enabled(c, Resume(k))
    ensures k == |c.started| && forall j :: 0 <= j < k ==> c.callers[j].phase == Done
  {
    assert c.callers[k].previous == k;
    if k > 0 {
      assert c.callers[k - 1].phase == Done;
    }
  }

  lemma {:induction false} RunKeepsValid(c: Chain, steps: seq<Step>)
    requires Valid(c) && IsRun(c, steps)
    ensures Valid(Run(c, steps))
    decreases |steps|
  {
    if steps == [] {
    } else {
      StepKeepsValid(c, steps[0]);
      RunKeepsValid(Next(c, steps[0]), steps[1..]);
    }
  }

  // ----- What every interleaving keeps -----

  /** Never are two operations between acquire and release. */
  lemma AtMostOneRuns(steps: seq<Step>, j: nat, k: nat)
    requires IsRun(Initial(), steps)
    requires j < |Run(Initial(), steps).callers| && Run(Initial(), steps).callers[j].phase == Running
    requires k < |Run(Initial(), steps).callers| && Run(Initial(), steps).callers[k].phase == Running
    ensures j == k
  {
    RunKeepsValid(Initial(), steps);
  }

  /** Operations begin in call order, each after every earlier one has finished. */
  lemma OperationsRunInCallOrder(steps: seq<Step>, k: nat)
    requires IsRun(Initial(), steps) && Enabled(Run(Initial(), steps), Resume(k))
    ensures var c := Run(Initial(), steps);
            && (forall i :: 0 <= i < |c.started| ==> c.started[i] == i)
            && k == |c.started|
            && forall j :: 0 <= j < k ==> c.callers[j].phase == Done
  {
    RunKeepsValid(Initial(), steps);
    ResumedIsFirst(Run(Initial(), steps), k);
  }

  /** As long as some caller is not done, some caller can take a step: no waiter is stuck. */
  lemma SomeCallerCanStep(steps: seq<Step>, k: nat)
    requires IsRun(Initial(), steps)
    requires k < |Run(Initial(), steps).callers| && Run(Initial(), steps).callers[k].phase != Done
    ensures exists j ::
              0 <= j <= k
              && (Enabled(Run(Initial(), steps), Resume(j)) || Enabled(Run(Initial(), steps), Release(j)))
  {
    RunKeepsValid(Initial(), steps);
    FirstCanStep(Run(Initial(), steps), k);
  }

  lemma {:induction false} FirstCanStep(c: Chain, k: nat)
    requires Valid(c) && k < |c.callers| && c.callers[k].phase != Done
    ensures exists j :: 0 <= j <= k && (Enabled(c, Resume(j)) || Enabled(c, Release(j)))
  {
    if k > 0 && c.callers[k - 1].phase != Done {
      FirstCanStep(c, k - 1);
    } else if c.callers[k].phase == Waiting {
      assert Enabled(c, Resume(k));
    } else {
      assert Enabled(c, Release(k));
    }
  }

  /** Two steps are left for a waiting caller, one for a running one. */
  function StepsLeft(callers: seq<Caller>): nat {
    if callers == [] then 0
    else
      var last := callers[|callers| - 1].phase;
      StepsLeft(callers[..|callers| - 1]) + match last case Waiting => 2 case Running => 1 case Done => 0
  }

  lemma {:induction false} StepsLeftUpdated(callers: seq<Caller>, k: nat, phase: Phase)
    requires k < |callers|
    requires (callers[k].phase == Waiting && phase == Running) || (callers[k].phase == Running && phase == Done)
    ensures StepsLeft(callers[k := callers[k].(phase := phase)]) == StepsLeft(callers) - 1
  {
    var n := |callers| - 1;
    var updated := callers[k := callers[k].(phase := phase)];
    if k == n {
      assert updated[..n] == callers[..n];
    } else {
      assert updated[..n] == callers[..n][k := callers[k].(phase := phase)];
      StepsLeftUpdated(callers[..n], k, phase);
    }
  }

  lemma {:induction false} NoStepsLeft(callers: seq<Caller>)
    ensures StepsLeft(callers) == 0 <==> forall k :: 0 <= k < |callers| ==> callers[k].phase == Done
  {
    if callers == [] {
    } else {
      var n := |callers| - 1;
      NoStepsLeft(callers[..n]);
      assert forall k :: 0 <= k < n ==> callers[..n][k] == callers[k];
      assert StepsLeft(callers) == 0 ==> forall k :: 0 <= k < n ==> callers[..n][k].phase == Done;
    }
  }

  /**
    Every resume and release brings the chain one step closer to all callers being done, so
    without new callers exactly `StepsLeft` more steps run every waiter to its end.
   */
  lemma {:induction false} EveryWaiterRuns(c: Chain, steps: seq<Step>)
    requires Valid(c) && IsRun(c, steps) && forall i :: 0 <= i < |steps| ==> !steps[i].Enter?
    ensures |Run(c, steps).callers| == |c.callers|
    ensures |steps| + StepsLeft(Run(c, steps).callers) == StepsLeft(c.callers)
    ensures |steps| == StepsLeft(c.callers) <==>
            forall k :: 0 <= k < |c.callers| ==> Run(c, steps).callers[k].phase == Done
    decreases |steps|
  {
    if steps == [] {
      NoStepsLeft(c.callers);
    } else {
      var next := Next(c, steps[0]);
      var k := steps[0].caller;
      StepKeepsValid(c, steps[0]);
      StepsLeftUpdated(c.callers, k, next.callers[k].phase);
      EveryWaiterRuns(next, steps[1..]);
    }
  }

  // ----- The service -----

  class MutationLock {
    var mutationTail: PromiseId
    var settled: set<PromiseId>
    var callers: seq<Caller>
    var started: seq<nat>

    function State(): Chain
      reads this
    {
      Chain(mutationTail, settled, callers, started)
    }

    constructor ()
      ensures State() == Initial() && Valid(State())
    {
      mutationTail, settled, callers, started := 0, {0}, [], [];
    }

    /** The synchronous part of a call: remember the tail, become the tail. */
    method Acquire() returns (caller: nat)
      requires Valid(State())
      modifies this
      ensures State() == Next(old(State()), Enter) && Valid(State())
      ensures caller == |old(callers)| && callers[caller].phase == Waiting
    {
      StepKeepsValid(State(), Enter);
      caller := |callers|;
      var previous := mutationTail;
      mutationTail := caller + 1;
      callers := callers + [Caller(previous, mutationTail, Waiting)];
    }

    /** The awaited promise is settled: the operation begins, alone. */
    method Begin(caller: nat)
      requires Valid(State()) && Enabled(State(), Resume(caller))
      modifies this
      ensures State() == Next(old(State()), Resume(caller)) && Valid(State())
      ensures forall k :: 0 <= k < |callers| && callers[k].phase == Running ==> k == caller
    {
      StepKeepsValid(State(), Resume(caller));
      callers := callers[caller := callers[caller].(phase := Running)];
      started := started + [caller];
    }

    /** The operation returned or threw: the promise is settled either way. */
    method Finish(caller: nat)
      requires Valid(State()) && Enabled(State(), Release(caller))
      modifies this
      ensures State() == Next(old(State()), Release(caller)) && Valid(State())
      ensures caller + 1 < |callers| ==> Enabled(State(), Resume(caller + 1))
    {
      StepKeepsValid(State(), Release(caller));
      settled := settled + {callers[caller].own};
      callers := callers[caller := callers[caller].(phase := Done)];
    }
  }
}
