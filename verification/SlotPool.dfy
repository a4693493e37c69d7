/**
 Compression slots.  A semaphore bounds the submissions to a single-threaded executor;
 callers come, are cancelled, fail to submit, and the executor is shut down, in any
 order.  Every region between two awaits, and every act of the worker thread, is one
 step.  The order in which the semaphore serves its waiters is left open.
 */
module SlotPool {
  import opened Wrappers

  // Where one call of `compress` stands with its slot
  datatype Phase =
    | Waiting                  // in the semaphore's acquire
    | Granted                  // owns a slot, has not resumed yet
    | Queued                   // submitted to the executor
    | Running
    | Ended(ran: bool)         // the job is over or was dropped; its callback is due
    | Released(ran: bool)      // the callback has given the slot back
    | NeverHeld                // cancelled while waiting
    | GaveBack                 // cancelled or failed between acquiring and submitting

  datatype Caller = Pending | Answered | Aborted | Cancelled | Failed

  datatype Call = Call(phase: Phase, caller: Caller)

  datatype Pool = Pool(free: nat, calls: seq<Call>, queue: seq<nat>, running: Option<nat>, shut: bool)

  datatype Step =
    | Arrive
    | Cancel(call: nat)
    | Close
    | Grant(call: nat)
    | Submit(call: nat, copied: bool)
    | Start
    | Finish
    | Drop
    | GiveBack(call: nat)
    | Answer(call: nat)

  function Initial(workers: nat): Pool {
    Pool(workers, [], [], None, false)
  }

  predicate In(p: Pool, call: nat, phase: Phase) {
    call < |p.calls| && p.calls[call].phase == phase
  }

  // Can the step be taken, and does it do anything?
  predicate Enabled(p: Pool, step: Step) {
    match step
    case Arrive => true
    case Cancel(c) => c < |p.calls| && p.calls[c].caller.Pending?
    case Close => !p.shut
    case Grant(c) => In(p, c, Waiting) && p.free > 0
    case Submit(c, _) => In(p, c, Granted)
    case Start => p.running.None? && p.queue != [] && p.queue[0] < |p.calls|
    case Finish => p.running.Some? && In(p, p.running.value, Running)
    case Drop => p.shut && p.queue != [] && p.queue[0] < |p.calls|
    case GiveBack(c) => c < |p.calls| && p.calls[c].phase.Ended?
    case Answer(c) => c < |p.calls| && p.calls[c].phase.Released? && p.calls[c].caller.Pending?
  }

  function Moved(p: Pool, c: nat, phase: Phase, caller: Caller): Pool
    requires c < |p.calls|
  {
    p.(calls := p.calls[c := Call(phase, caller)])
  }

  function Next(p: Pool, step: Step): Pool {
    if !Enabled(p, step) then p
    else
      match step
      case Arrive => p.(calls := p.calls + [Call(Waiting, Pending)])
      case Cancel(c) => Moved(p, c, if p.calls[c].phase.Waiting? then NeverHeld else p.calls[c].phase, Cancelled)
      case Close => p.(shut := true)
      case Grant(c) => Moved(p, c, Granted, p.calls[c].caller).(free := p.free - 1)
      case Submit(c, copied) =>
        if p.calls[c].caller.Cancelled? then Moved(p, c, GaveBack, Cancelled).(free := p.free + 1)
        else if !copied || p.shut then Moved(p, c, GaveBack, Failed).(free := p.free + 1)
        else Moved(p, c, Queued, p.calls[c].caller).(queue := p.queue + [c])
      case Start =>
        Moved(p, p.queue[0], Running, p.calls[p.queue[0]].caller).(queue := p.queue[1..], running := Some(p.queue[0]))
      case Finish => Moved(p, p.running.value, Ended(true), p.calls[p.running.value].caller).(running := None)
      case Drop =>
        Moved(p, p.queue[0], Ended(false), p.calls[p.queue[0]].caller).(queue := p.queue[1..])
      case GiveBack(c) => Moved(p, c, Released(p.calls[c].phase.ran), p.calls[c].caller).(free := p.free + 1)
      case Answer(c) => Moved(p, c, p.calls[c].phase, if p.calls[c].phase.ran then Answered else Aborted)
  }

  function After(p: Pool, steps: seq<Step>): Pool {
    if steps == [] then p else Next(After(p, steps[..|steps| - 1]), steps[|steps| - 1])
  }

  // Drop steps for as long as there is a queued job
  function Emptied(p: Pool): Pool
    decreases |p.queue|
  {
    if Enabled(p, Drop) then Emptied(Next(p, Drop)) else p
  }

  // The same, with other steps in between: the worker may take a job before it is dropped.
  function Drained(p: Pool, between: seq<seq<Step>>): Pool
    decreases |between|
  {
    if between == [] then Emptied(p) else Drained(Next(After(p, between[0]), Drop), between[1..])
  }

  // ------------------------------------------------------------------
  // The object
  // ------------------------------------------------------------------

  class HeadroomCompressor {
    var free: nat            // the semaphore's counter
    var calls: seq<Call>
    var queue: seq<nat>      // the executor's work queue
    var running: Option<nat>
    var shut: bool

    function State(): Pool
      reads this
    {
      Pool(free, calls, queue, running, shut)
    }

    constructor (workers: nat)
      ensures State() == Initial(workers)
    {
      free, calls, queue, running, shut := workers, [], [], None, false;
    }

    // compress, up to its first await
    method Arrive() returns (c: nat)
      modifies this
      ensures State() == Next(old(State()), Step.Arrive)
      ensures c == |old(calls)|
    {
      c := |calls|;
      calls := calls + [Call(Waiting, Pending)];
    }

    // The semaphore hands a slot to a waiter.
    method Grant(c: nat)
      requires Enabled(State(), Step.Grant(c))
      modifies this`free, this`calls
      ensures State() == Next(old(State()), Step.Grant(c))
    {
      free := free - 1;
      calls := calls[c := calls[c].(phase := Granted)];
    }

    // compress, from the first await to the second
    method Submit(c: nat, copied: bool) returns (raised: bool)
      requires Enabled(State(), Step.Submit(c, copied))
      modifies this`free, this`calls, this`queue
      ensures State() == Next(old(State()), Step.Submit(c, copied))
      ensures raised <==> free == old(free) + 1
    {
      if calls[c].caller.Cancelled? {
        // the semaphore takes back the slot it had granted
        free := free + 1;
        calls := calls[c := Call(GaveBack, Cancelled)];
        return true;
      }
      var submitted := copied && !shut;
      if !submitted {
        free := free + 1;
        calls := calls[c := Call(GaveBack, Failed)];
        return true;
      }
      queue := queue + [c];
      calls := calls[c := calls[c].(phase := Queued)];
      return false;
    }

    // The caller's task is cancelled; the shield keeps this from the job.
    method Cancel(c: nat)
      requires Enabled(State(), Step.Cancel(c))
      modifies this`calls
      ensures State() == Next(old(State()), Step.Cancel(c))
    {
      var phase := calls[c].phase;
      if phase.Waiting? {
        phase := NeverHeld;
      }
      calls := calls[c := Call(phase, Cancelled)];
    }

    // The worker thread takes the oldest job.
    method Start()
      requires Valid(State()) && Enabled(State(), Step.Start)
      modifies this`calls, this`queue, this`running
      ensures State() == Next(old(State()), Step.Start)
    {
      var c := queue[0];
      calls := calls[c := calls[c].(phase := Running)];
      queue, running := queue[1..], Some(c);
    }

    method Finish()
      requires Valid(State()) && Enabled(State(), Step.Finish)
      modifies this`calls, this`running
      ensures State() == Next(old(State()), Step.Finish)
    {
      var c := running.value;
      calls := calls[c := calls[c].(phase := Ended(true))];
      running := None;
    }

    // The done callback
    method GiveBack(c: nat)
      requires Enabled(State(), Step.GiveBack(c))
      modifies this`free, this`calls
      ensures State() == Next(old(State()), Step.GiveBack(c))
    {
      free := free + 1;
      calls := calls[c := calls[c].(phase := Released(calls[c].phase.ran))];
    }

    // compress, after its second await
    method Answer(c: nat)
      requires Enabled(State(), Step.Answer(c))
      modifies this`calls
      ensures State() == Next(old(State()), Step.Answer(c))
    {
      calls := calls[c := calls[c].(caller := if calls[c].phase.ran then Answered else Aborted)];
    }

    // close: queued jobs are dropped one by one, while callers, callbacks and the worker
    // thread go on as they like
    method Close(between: seq<seq<Step>>)
      requires Valid(State())
      modifies this
      ensures Valid(State())
      ensures State() == Drained(Next(old(State()), Step.Close), between)
      ensures shut && queue == []
    {
      shut := true;
      for n := 0 to |between|
        invariant Valid(State()) && shut
        invariant Drained(State(), between[n..]) == Drained(Next(old(State()), Step.Close), between)
      {
        assert between[n..][0] == between[n] && between[n..][1..] == between[n + 1..];
        Interfere(between[n]);
        NextValid(State(), Drop);
        if queue != [] {
          DropOldest();
        }
      }
      while queue != []
        invariant Valid(State()) && shut
        invariant Emptied(State()) == Drained(Next(old(State()), Step.Close), between)
        decreases |queue|
      {
        NextValid(State(), Drop);
        DropOldest();
      }
    }

    method Interfere(steps: seq<Step>)
      requires Valid(State()) && shut
      modifies this
      ensures Valid(State()) && shut
      ensures State() == After(old(State()), steps)
    {
      for n := 0 to |steps|
        invariant Valid(State()) && shut
        invariant State() == After(old(State()), steps[..n])
      {
        assert steps[..n + 1][..n] == steps[..n];
        NextValid(State(), steps[n]);
        Act(steps[n]);
      }
      assert steps[..|steps|] == steps;
    }

    method Act(step: Step)
      requires Valid(State()) && shut
      modifies this
      ensures State() == Next(old(State()), step) && shut
    {
      if !Enabled(State(), step) {
        return;
      }
      match step {
        case Arrive => var _ := Arrive();
        case Cancel(c) => Cancel(c);
        case Grant(c) => Grant(c);
        case Submit(c, copied) => var _ := Submit(c, copied);
        case Start => Start();
        case Finish => Finish();
        case Drop => DropOldest();
        case GiveBack(c) => GiveBack(c);
        case Answer(c) => Answer(c);
      }
    }

    method DropOldest()
      requires Valid(State()) && Enabled(State(), Drop)
      modifies this`calls, this`queue
      ensures State() == Next(old(State()), Drop)
    {
      var c := queue[0];
      calls := calls[c := calls[c].(phase := Ended(false))];
      queue := queue[1..];
    }
  }

  // ------------------------------------------------------------------
  // The invariant
  // ------------------------------------------------------------------

  function Total(calls: seq<Call>, weight: Call -> nat): nat {
    if calls == [] then 0 else weight(calls[0]) + Total(calls[1..], weight)
  }

  lemma {:induction false} TotalUpdate(calls: seq<Call>, weight: Call -> nat, c: nat, call: Call)
    requires c < |calls|
    ensures Total(calls[c := call], weight) + weight(calls[c]) == Total(calls, weight) + weight(call)
  {
    if c > 0 {
      assert calls[c := call][1..] == calls[1..][c - 1 := call];
      TotalUpdate(calls[1..], weight, c - 1, call);
    } else {
      assert calls[c := call][1..] == calls[1..];
    }
  }

  lemma {:induction false} TotalAppend(calls: seq<Call>, weight: Call -> nat, call: Call)
    ensures Total(calls + [call], weight) == Total(calls, weight) + weight(call)
  {
    if calls == [] {
    } else {
      assert (calls + [call])[1..] == calls[1..] + [call];
      TotalAppend(calls[1..], weight, call);
    }
  }

  lemma {:induction false} NothingWeighs(calls: seq<Call>, weight: Call -> nat)
    requires forall c: nat :: c < |calls| ==> weight(calls[c]) == 0
    ensures Total(calls, weight) == 0
  {
    if calls == [] {
    } else {
      NothingWeighs(calls[1..], weight);
    }
  }

  ghost predicate Valid(p: Pool) {
    && (forall c: nat :: c < |p.calls| ==> (p.calls[c].phase.Running? <==> p.running == Some(c)))
    && (p.running.Some? ==> p.running.value < |p.calls|)
    && (forall c: nat :: c < |p.calls| ==> (p.calls[c].phase.Queued? <==> c in p.queue))
    && (forall i :: 0 <= i < |p.queue| ==> p.queue[i] < |p.calls|)
    && (forall i, j :: 0 <= i < j < |p.queue| ==> p.queue[i] != p.queue[j])
    && (forall c: nat :: c < |p.calls| && p.calls[c].phase.Waiting? ==> p.calls[c].caller.Pending?)
    && (forall c: nat :: c < |p.calls| && p.calls[c].phase in {NeverHeld, GaveBack} ==> !p.calls[c].caller.Pending?)
  }

  lemma NextValid(p: Pool, step: Step)
    requires Valid(p)
    ensures Valid(Next(p, step))
  {
    if Enabled(p, step) {
      match step
      case Arrive =>
      case Close =>
      case Start => StartValid(p);
      case Finish => FinishValid(p);
      case Drop => DropValid(p);
      case Submit(c, _) => SubmitValid(p, step);
      case _ => CallValid(p, step);
    }
  }

  lemma StartValid(p: Pool)
    requires Valid(p) && Enabled(p, Step.Start)
    ensures Valid(Next(p, Step.Start))
  {
    var q := Next(p, Step.Start);
    assert p.queue == [p.queue[0]] + q.queue;
  }

  lemma DropValid(p: Pool)
    requires Valid(p) && Enabled(p, Drop)
    ensures Valid(Next(p, Drop))
  {
    var q := Next(p, Drop);
    assert p.queue == [p.queue[0]] + q.queue;
  }

  lemma FinishValid(p: Pool)
    requires Valid(p) && Enabled(p, Step.Finish)
    ensures Valid(Next(p, Step.Finish))
  {
  }

  lemma SubmitValid(p: Pool, step: Step)
    requires Valid(p) && Enabled(p, step) && step.Submit?
    ensures Valid(Next(p, step))
  {
    var q := Next(p, step);
    if q.queue == p.queue {
      ReturnedValid(p, q, step.call);
    } else {
      QueuedValid(p, q, step.call);
    }
  }

  lemma ReturnedValid(p: Pool, q: Pool, c: nat)
    requires Valid(p) && In(p, c, Granted)
    requires exists caller :: caller != Pending && q == Moved(p, c, GaveBack, caller).(free := p.free + 1)
    ensures Valid(q)
  {
  }

  lemma QueuedValid(p: Pool, q: Pool, c: nat)
    requires Valid(p) && In(p, c, Granted)
    requires q == Moved(p, c, Queued, p.calls[c].caller).(queue := p.queue + [c])
    ensures Valid(q)
  {
    assert q.queue[|p.queue|] == c;
    assert forall d :: d in q.queue <==> d in p.queue || d == c;
  }

  lemma CallValid(p: Pool, step: Step)
    requires Valid(p) && Enabled(p, step) && (step.Cancel? || step.Grant? || step.GiveBack? || step.Answer?)
    ensures Valid(Next(p, step))
  {
  }

  // ------------------------------------------------------------------
  // Conservation
  // ------------------------------------------------------------------

  function Unsubmitted(call: Call): nat { if call.phase.Granted? then 1 else 0 }

  // A submission is unfinished until its callback has run.
  function Unfinished(call: Call): nat { if call.phase.Queued? || call.phase.Running? || call.phase.Ended? then 1 else 0 }

  function Active(call: Call): nat { if call.phase.Queued? || call.phase.Running? then 1 else 0 }

  ghost predicate Conserved(p: Pool, workers: nat) {
    && p.free + Total(p.calls, Unsubmitted) + Total(p.calls, Unfinished) == workers
    && Jobs(p) == Total(p.calls, Active)
  }

  // The one call whose phase or caller a step changes, besides Arrive
  function Subject(p: Pool, step: Step): Option<nat> {
    match step
    case Arrive | Close => None
    case Cancel(c) => Some(c)
    case Grant(c) => Some(c)
    case Submit(c, _) => Some(c)
    case GiveBack(c) => Some(c)
    case Answer(c) => Some(c)
    case Start | Drop => if p.queue != [] then Some(p.queue[0]) else None
    case Finish => p.running
  }

  lemma OneCallMoves(p: Pool, step: Step)
    requires Valid(p) && Enabled(p, step) && !step.Arrive? && !step.Close?
    ensures var c := Subject(p, step);
            && c.Some? && c.value < |p.calls| == |Next(p, step).calls|
            && Next(p, step).calls == p.calls[c.value := Next(p, step).calls[c.value]]
  {
  }

  function Jobs(p: Pool): nat {
    |p.queue| + if p.running.Some? then 1 else 0
  }

  // What the moving call gains, the counters lose.
  lemma CallBalance(p: Pool, step: Step)
    requires Valid(p) && Enabled(p, step) && !step.Arrive? && !step.Close?
    ensures var c, q := Subject(p, step), Next(p, step);
            && c.Some? && c.value < |p.calls| == |q.calls|
            && p.free + Unsubmitted(p.calls[c.value]) + Unfinished(p.calls[c.value])
            == q.free + Unsubmitted(q.calls[c.value]) + Unfinished(q.calls[c.value])
            && Jobs(p) + Active(q.calls[c.value]) == Jobs(q) + Active(p.calls[c.value])
  {
  }

  lemma NextConserved(p: Pool, step: Step, workers: nat)
    requires Valid(p) && Conserved(p, workers)
    ensures Conserved(Next(p, step), workers)
  {
    if Enabled(p, step) && step.Arrive? {
      TotalAppend(p.calls, Unsubmitted, Call(Waiting, Pending));
      TotalAppend(p.calls, Unfinished, Call(Waiting, Pending));
      TotalAppend(p.calls, Active, Call(Waiting, Pending));
    } else if Enabled(p, step) && !step.Close? {
      OneCallMoves(p, step);
      CallBalance(p, step);
      Balanced(p, Next(p, step), workers, Subject(p, step).value);
    }
  }

  lemma Balanced(p: Pool, q: Pool, workers: nat, c: nat)
    requires Conserved(p, workers) && c < |p.calls| == |q.calls|
    requires q.calls == p.calls[c := q.calls[c]]
    requires p.free + Unsubmitted(p.calls[c]) + Unfinished(p.calls[c])
          == q.free + Unsubmitted(q.calls[c]) + Unfinished(q.calls[c])
    requires Jobs(p) + Active(q.calls[c]) == Jobs(q) + Active(p.calls[c])
    ensures Conserved(q, workers)
  {
    TotalUpdate(p.calls, Unsubmitted, c, q.calls[c]);
    TotalUpdate(p.calls, Unfinished, c, q.calls[c]);
    TotalUpdate(p.calls, Active, c, q.calls[c]);
  }

  // Slots are never lost and never made up, over every run.
  lemma {:induction false} SlotsConserved(workers: nat, steps: seq<Step>)
    ensures var p := After(Initial(workers), steps);
            Valid(p) && Conserved(p, workers)
  {
    if steps == [] {
    } else {
      var most, last := steps[..|steps| - 1], steps[|steps| - 1];
      SlotsConserved(workers, most);
      NextValid(After(Initial(workers), most), last);
      NextConserved(After(Initial(workers), most), last, workers);
    }
  }

  // There is never more work in the executor than slots are taken, and one job runs at a time.
  lemma WorkIsBounded(workers: nat, steps: seq<Step>)
    ensures var p := After(Initial(workers), steps);
            && Jobs(p) <= workers - p.free
            && forall c: nat, d: nat :: c < |p.calls| && d < |p.calls| && p.calls[c].phase.Running? && p.calls[d].phase.Running? ==> c == d
  {
    SlotsConserved(workers, steps);
    ActiveAreUnfinished(After(Initial(workers), steps).calls);
  }

  lemma {:induction false} ActiveAreUnfinished(calls: seq<Call>)
    ensures Total(calls, Active) <= Total(calls, Unfinished)
  {
    if calls == [] {
    } else {
      ActiveAreUnfinished(calls[1..]);
    }
  }

  // ------------------------------------------------------------------
  // One release per slot, and not before the job is over
  // ------------------------------------------------------------------

  // Slot movements are read off the counter.
  function Taken(p: Pool, step: Step, c: nat): nat {
    if Next(p, step).free < p.free && Subject(p, step) == Some(c) then 1 else 0
  }

  function Returned(p: Pool, step: Step, c: nat): nat {
    if Next(p, step).free > p.free && Subject(p, step) == Some(c) then 1 else 0
  }

  function Takings(p: Pool, steps: seq<Step>, c: nat): nat {
    if steps == [] then 0
    else Takings(p, steps[..|steps| - 1], c) + Taken(After(p, steps[..|steps| - 1]), steps[|steps| - 1], c)
  }

  function Returnings(p: Pool, steps: seq<Step>, c: nat): nat {
    if steps == [] then 0
    else Returnings(p, steps[..|steps| - 1], c) + Returned(After(p, steps[..|steps| - 1]), steps[|steps| - 1], c)
  }

  predicate HasHeld(p: Pool, c: nat) {
    c < |p.calls| && !p.calls[c].phase.Waiting? && !p.calls[c].phase.NeverHeld?
  }

  predicate HasReturned(p: Pool, c: nat) {
    c < |p.calls| && (p.calls[c].phase.Released? || p.calls[c].phase.GaveBack?)
  }

  // Every slot taken is returned at most once, and exactly once when the call is done with it.
  lemma {:induction false} ReleasedOnce(workers: nat, steps: seq<Step>, c: nat)
    ensures var p := After(Initial(workers), steps);
            && Takings(Initial(workers), steps, c) == (if HasHeld(p, c) then 1 else 0)
            && Returnings(Initial(workers), steps, c) == (if HasReturned(p, c) then 1 else 0)
  {
    if steps == [] {
    } else {
      var most, last := steps[..|steps| - 1], steps[|steps| - 1];
      ReleasedOnce(workers, most, c);
      SlotsConserved(workers, most);
      MovesOnce(After(Initial(workers), most), last, c);
    }
  }

  lemma MovesOnce(p: Pool, step: Step, c: nat)
    requires Valid(p)
    ensures (if HasHeld(Next(p, step), c) then 1 else 0) == (if HasHeld(p, c) then 1 else 0) + Taken(p, step, c)
    ensures (if HasReturned(Next(p, step), c) then 1 else 0) == (if HasReturned(p, c) then 1 else 0) + Returned(p, step, c)
  {
  }

  predicate Submitted(p: Pool, c: nat) {
    c < |p.calls| && (p.calls[c].phase.Queued? || p.calls[c].phase.Running?)
  }

  // The step at which c's job comes to an end
  predicate JobEnds(p: Pool, step: Step, c: nat) {
    || (step.Finish? && p.running == Some(c))
    || (step.Drop? && p.shut && p.queue != [] && p.queue[0] == c && In(p, c, Queued))
  }

  // At step k of the run c's job comes to an end, its slot not returned before.
  predicate EndsAt(p: Pool, steps: seq<Step>, c: nat, k: nat) {
    k < |steps| && JobEnds(After(p, steps[..k]), steps[k], c) && Returnings(p, steps[..k], c) == 0
  }

  // Whatever happens to the caller, a submitted job keeps its slot until it has run, or
  // is dropped unstarted by shutdown.
  lemma {:induction false} SlotOutlivesCaller(p: Pool, steps: seq<Step>, c: nat)
    requires Valid(p) && Submitted(p, c)
    ensures Valid(After(p, steps))
    ensures (Submitted(After(p, steps), c) && Returnings(p, steps, c) == 0) || exists k: nat :: EndsAt(p, steps, c, k)
  {
    if steps == [] {
    } else {
      var n := |steps| - 1;
      var most := steps[..n];
      SlotOutlivesCaller(p, most, c);
      NextValid(After(p, most), steps[n]);
      if Submitted(After(p, most), c) && Returnings(p, most, c) == 0 {
        KeepsSlot(After(p, most), steps[n], c);
        assert JobEnds(After(p, most), steps[n], c) ==> EndsAt(p, steps, c, n);
      } else {
        var k: nat :| EndsAt(p, most, c, k);
        EndedBefore(p, steps, c, n, k);
      }
    }
  }

  lemma EndedBefore(p: Pool, steps: seq<Step>, c: nat, n: nat, k: nat)
    requires n <= |steps| && EndsAt(p, steps[..n], c, k)
    ensures EndsAt(p, steps, c, k)
  {
    assert steps[..n][..k] == steps[..k];
  }

  lemma KeepsSlot(p: Pool, step: Step, c: nat)
    requires Valid(p) && Submitted(p, c)
    ensures JobEnds(p, step, c) || (Submitted(Next(p, step), c) && Returned(p, step, c) == 0)
  {
  }

  // ------------------------------------------------------------------
  // Everything drains
  // ------------------------------------------------------------------

  // Steps that need no new caller, no cancellation and no shutdown
  predicate Internal(step: Step) {
    !step.Arrive? && !step.Cancel? && !step.Close?
  }

  // How many internal steps a call can still cause
  function Work(call: Call): nat {
    match call.phase
    case Waiting => 6
    case Granted => 5
    case Queued => 4
    case Running => 3
    case Ended(_) => 2
    case Released(_) => if call.caller.Pending? then 1 else 0
    case NeverHeld | GaveBack => 0
  }

  ghost predicate Busy(p: Pool, steps: seq<Step>) {
    forall k :: 0 <= k < |steps| ==> Internal(steps[k]) && Enabled(After(p, steps[..k]), steps[k])
  }

  // Left alone, the pool comes to rest within a bounded number of steps...
  lemma {:induction false} ComesToRest(p: Pool, steps: seq<Step>)
    requires Valid(p) && Busy(p, steps)
    ensures Valid(After(p, steps))
    ensures |steps| + Total(After(p, steps).calls, Work) <= Total(p.calls, Work)
  {
    if steps == [] {
    } else {
      var n := |steps| - 1;
      BusyBefore(p, steps, n);
      ComesToRest(p, steps[..n]);
      var q := After(p, steps[..n]);
      assert Internal(steps[n]) && Enabled(q, steps[n]);
      NextValid(q, steps[n]);
      WorkFalls(q, steps[n]);
    }
  }

  lemma BusyBefore(p: Pool, steps: seq<Step>, n: nat)
    requires Busy(p, steps) && n <= |steps|
    ensures Busy(p, steps[..n])
  {
    forall k | 0 <= k < n
      ensures Internal(steps[..n][k]) && Enabled(After(p, steps[..n][..k]), steps[..n][k])
    {
      assert steps[..n][..k] == steps[..k];
      assert Internal(steps[k]) && Enabled(After(p, steps[..k]), steps[k]);
    }
  }

  lemma WorkFalls(p: Pool, step: Step)
    requires Valid(p) && Internal(step) && Enabled(p, step)
    ensures Total(Next(p, step).calls, Work) < Total(p.calls, Work)
  {
    OneCallMoves(p, step);
    SubjectFalls(p, step);
    var c := Subject(p, step).value;
    TotalUpdate(p.calls, Work, c, Next(p, step).calls[c]);
  }

  lemma SubjectFalls(p: Pool, step: Step)
    requires Valid(p) && Internal(step) && Enabled(p, step)
    ensures var c := Subject(p, step);
            && c.Some? && c.value < |p.calls| == |Next(p, step).calls|
            && Work(Next(p, step).calls[c.value]) < Work(p.calls[c.value])
  {
  }

  // ...and at rest every slot is free and every caller has its answer.
  lemma RestIsClean(workers: nat, steps: seq<Step>)
    requires workers > 0
    requires forall step :: Internal(step) ==> !Enabled(After(Initial(workers), steps), step)
    ensures var p := After(Initial(workers), steps);
            && p.free == workers && p.queue == [] && p.running.None?
            && forall c :: 0 <= c < |p.calls| ==> !p.calls[c].caller.Pending?
  {
    var p := After(Initial(workers), steps);
    SlotsConserved(workers, steps);
    assert !Enabled(p, Step.Finish) && !Enabled(p, Step.Start);
    forall c: nat | c < |p.calls|
      ensures Unsubmitted(p.calls[c]) == 0 && Unfinished(p.calls[c]) == 0
    {
      assert !Enabled(p, Step.Submit(c, true)) && !Enabled(p, Step.GiveBack(c));
    }
    NothingWeighs(p.calls, Unsubmitted);
    NothingWeighs(p.calls, Unfinished);
    forall c: nat | c < |p.calls|
      ensures !p.calls[c].caller.Pending?
    {
      assert !Enabled(p, Step.Grant(c)) && !Enabled(p, Step.Submit(c, true));
      assert !Enabled(p, Step.GiveBack(c)) && !Enabled(p, Step.Answer(c));
    }
  }

  // ------------------------------------------------------------------
  // Shutdown is a run like any other
  // ------------------------------------------------------------------

  lemma {:induction false} AfterApart(p: Pool, a: seq<Step>, b: seq<Step>)
    ensures After(p, a + b) == After(After(p, a), b)
  {
    if b == [] {
      assert a + b == a;
    } else {
      assert (a + b)[..|a + b| - 1] == a + b[..|b| - 1];
      AfterApart(p, a, b[..|b| - 1]);
    }
  }

  lemma {:induction false} EmptiedIsRun(p: Pool) returns (steps: seq<Step>)
    ensures After(p, steps) == Emptied(p)
    decreases |p.queue|
  {
    if !Enabled(p, Drop) {
      steps := [];
    } else {
      steps := EmptiedIsRun(Next(p, Drop));
      OneStep(p, Drop);
      AfterApart(p, [Drop], steps);
      steps := [Drop] + steps;
    }
  }

  lemma OneStep(p: Pool, step: Step)
    ensures After(p, [step]) == Next(p, step)
  {
    assert [step][..0] == [];
  }

  // So everything that holds of runs holds of it.
  lemma {:induction false} DrainedIsRun(p: Pool, between: seq<seq<Step>>) returns (steps: seq<Step>)
    ensures After(p, steps) == Drained(p, between)
    decreases |between|
  {
    if between == [] {
      steps := EmptiedIsRun(p);
    } else {
      var q := After(p, between[0]);
      var rest := DrainedIsRun(Next(q, Drop), between[1..]);
      OneStep(q, Drop);
      AfterApart(p, between[0], [Drop]);
      AfterApart(p, between[0] + [Drop], rest);
      steps := between[0] + [Drop] + rest;
    }
  }

  // After a shutdown nothing is queued any more, however the shutdown was interrupted
  // and whatever happens later.
  lemma {:induction false} StaysShut(p: Pool, steps: seq<Step>)
    requires Valid(p) && p.shut && p.queue == []
    ensures Valid(After(p, steps)) && After(p, steps).shut && After(p, steps).queue == []
  {
    if steps == [] {
    } else {
      StaysShut(p, steps[..|steps| - 1]);
      NextValid(After(p, steps[..|steps| - 1]), steps[|steps| - 1]);
    }
  }

  // ------------------------------------------------------------------
  // What the callers are told
  // ------------------------------------------------------------------

  // How a caller ends goes with how its job ended: it is answered only when the job ran,
  // aborted only when the job was dropped, and failed only when it could not be submitted.
  predicate Told(call: Call) {
    match call.caller
    case Pending => !call.phase.NeverHeld? && !call.phase.GaveBack?
    case Answered => call.phase == Released(true)
    case Aborted => call.phase == Released(false)
    case Failed => call.phase == GaveBack
    case Cancelled => !call.phase.Waiting?
  }

  ghost predicate AllTold(p: Pool) {
    forall c :: 0 <= c < |p.calls| ==> Told(p.calls[c])
  }

  lemma {:induction false} CallersAreTold(workers: nat, steps: seq<Step>)
    ensures AllTold(After(Initial(workers), steps))
  {
    if steps == [] {
    } else {
      var most, last := steps[..|steps| - 1], steps[|steps| - 1];
      CallersAreTold(workers, most);
      SlotsConserved(workers, most);
      NextTold(After(Initial(workers), most), last);
    }
  }

  lemma NextTold(p: Pool, step: Step)
    requires Valid(p) && AllTold(p)
    ensures AllTold(Next(p, step))
  {
    if Enabled(p, step) && !step.Arrive? && !step.Close? {
      OneCallMoves(p, step);
      SubjectTold(p, step);
    }
  }

  lemma SubjectTold(p: Pool, step: Step)
    requires Valid(p) && AllTold(p) && Enabled(p, step) && !step.Arrive? && !step.Close?
    ensures var c := Subject(p, step);
            c.Some? && c.value < |Next(p, step).calls| && Told(Next(p, step).calls[c.value])
  {
  }

  // The worker finishes c's job in this step.
  function Finishing(p: Pool, step: Step, c: nat): nat {
    if step.Finish? && Enabled(p, step) && p.running == Some(c) then 1 else 0
  }

  function Finishes(p: Pool, steps: seq<Step>, c: nat): nat {
    if steps == [] then 0
    else Finishes(p, steps[..|steps| - 1], c) + Finishing(After(p, steps[..|steps| - 1]), steps[|steps| - 1], c)
  }

  predicate HasRun(p: Pool, c: nat) {
    c < |p.calls| && (p.calls[c].phase == Ended(true) || p.calls[c].phase == Released(true))
  }

  // A job counts as run exactly if the worker finished it, which it does once at most.
  lemma {:induction false} RunsOnce(workers: nat, steps: seq<Step>, c: nat)
    ensures Finishes(Initial(workers), steps, c) == if HasRun(After(Initial(workers), steps), c) then 1 else 0
  {
    if steps == [] {
    } else {
      var most, last := steps[..|steps| - 1], steps[|steps| - 1];
      RunsOnce(workers, most, c);
      SlotsConserved(workers, most);
      FinishesOnce(After(Initial(workers), most), last, c);
    }
  }

  lemma FinishesOnce(p: Pool, step: Step, c: nat)
    requires Valid(p)
    ensures (if HasRun(Next(p, step), c) then 1 else 0) == (if HasRun(p, c) then 1 else 0) + Finishing(p, step, c)
  {
  }

  // At rest every caller that was not cancelled knows how its job ended: answered exactly
  // if the worker finished it, aborted if shutdown dropped it, failed if it was never queued.
  lemma RestTellsAll(workers: nat, steps: seq<Step>, c: nat)
    requires workers > 0
    requires forall step :: Internal(step) ==> !Enabled(After(Initial(workers), steps), step)
    requires c < |After(Initial(workers), steps).calls|
    ensures var call := After(Initial(workers), steps).calls[c];
            !call.caller.Cancelled? ==>
              && (call.caller.Answered? <==> Finishes(Initial(workers), steps, c) == 1)
              && (call.caller.Aborted? <==> call.phase == Released(false))
              && (call.caller.Failed? <==> call.phase == GaveBack)
  {
    RestIsClean(workers, steps);
    CallersAreTold(workers, steps);
    RunsOnce(workers, steps, c);
    assert Told(After(Initial(workers), steps).calls[c]);
  }

  // ------------------------------------------------------------------
  // A call that nothing disturbs is answered
  // ------------------------------------------------------------------

  // Nobody cancels call c, its messages can be copied, and the executor is not shut down.
  ghost predicate Undisturbed(steps: seq<Step>, c: nat) {
    forall k :: 0 <= k < |steps| ==> steps[k] != Step.Cancel(c) && steps[k] != Step.Submit(c, false) && !steps[k].Close?
  }

  predicate OnTrack(p: Pool, c: nat) {
    && !p.shut
    && (c < |p.calls| ==>
          && (p.calls[c].caller.Pending? || p.calls[c].caller.Answered?)
          && p.calls[c].phase in {Waiting, Granted, Queued, Running, Ended(true), Released(true)})
  }

  lemma {:induction false} StaysOnTrack(workers: nat, steps: seq<Step>, c: nat)
    requires Undisturbed(steps, c)
    ensures OnTrack(After(Initial(workers), steps), c)
  {
    if steps == [] {
    } else {
      var most, last := steps[..|steps| - 1], steps[|steps| - 1];
      assert Undisturbed(most, c);
      StaysOnTrack(workers, most, c);
      SlotsConserved(workers, most);
      StepOnTrack(After(Initial(workers), most), last, c);
    }
  }

  lemma StepOnTrack(p: Pool, step: Step, c: nat)
    requires Valid(p) && OnTrack(p, c)
    requires step != Step.Cancel(c) && step != Step.Submit(c, false) && !step.Close?
    ensures OnTrack(Next(p, step), c)
  {
  }

  lemma UndisturbedIsAnswered(workers: nat, steps: seq<Step>, c: nat)
    requires workers > 0 && Undisturbed(steps, c)
    requires forall step :: Internal(step) ==> !Enabled(After(Initial(workers), steps), step)
    requires c < |After(Initial(workers), steps).calls|
    ensures After(Initial(workers), steps).calls[c].caller.Answered?
    ensures Finishes(Initial(workers), steps, c) == 1
  {
    StaysOnTrack(workers, steps, c);
    RestIsClean(workers, steps);
    RestTellsAll(workers, steps, c);
  }

  // ------------------------------------------------------------------
  // First come, first served
  // ------------------------------------------------------------------

  // Jobs leave the queue from its front and join it at its end, so none overtakes another.
  lemma {:induction false} NoOvertaking(p: Pool, steps: seq<Step>) returns (left: nat, joined: seq<nat>)
    ensures left <= |p.queue| && After(p, steps).queue == p.queue[left..] + joined
  {
    if steps == [] {
      left, joined := 0, [];
    } else {
      left, joined := NoOvertaking(p, steps[..|steps| - 1]);
      var q := After(p, steps[..|steps| - 1]);
      QueueMoves(q, steps[|steps| - 1]);
      left, joined := Rejoined(p.queue, left, joined, q.queue, After(p, steps).queue);
    }
  }

  // A step leaves the queue alone, takes its front or adds to its end.
  predicate MovesQueue(before: seq<nat>, after: seq<nat>) {
    || after == before
    || (before != [] && after == before[1..])
    || (after != [] && before == after[..|after| - 1])
  }

  lemma QueueMoves(p: Pool, step: Step)
    ensures MovesQueue(p.queue, Next(p, step).queue)
  {
    if step.Submit? && Enabled(p, step) {
      var after := Next(p, step).queue;
      assert after != p.queue ==> after == p.queue + [step.call] && after[..|after| - 1] == p.queue;
    }
  }

  lemma Rejoined(first: seq<nat>, left: nat, joined: seq<nat>, before: seq<nat>, after: seq<nat>)
    returns (left': nat, joined': seq<nat>)
    requires left <= |first| && before == first[left..] + joined && MovesQueue(before, after)
    ensures left' <= |first| && after == first[left'..] + joined'
  {
    left', joined' := left, joined;
    if after == before {
    } else if before != [] && after == before[1..] {
      if left < |first| {
        left' := left + 1;
        assert first[left..] == [first[left]] + first[left'..];
      } else {
        joined' := joined[1..];
        assert first[left..] == [];
      }
    } else {
      joined' := joined + [after[|after| - 1]];
      assert after == before + [after[|after| - 1]];
    }
  }

  // The job the worker takes, and the one shutdown drops, is the one at the front.
  lemma FrontIsTaken(p: Pool, step: Step, c: nat)
    requires Valid(p) && In(p, c, Queued) && !In(Next(p, step), c, Queued)
    ensures p.queue != [] && p.queue[0] == c && Next(p, step).queue == p.queue[1..]
    ensures (step.Start? && Next(p, step).running == Some(c)) || (step.Drop? && p.shut && In(Next(p, step), c, Ended(false)))
  {
  }
}
