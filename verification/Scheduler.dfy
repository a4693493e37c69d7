/**
 Replica selection: round-robin positions, cooldown deadlines and a monotone
 clock that is read once per candidate.  Every region between two awaits is one
 atomic step, so a run of the shared table is a sequence of such steps, in
 whatever order the requests in flight take them.
 */
module Scheduler {
  import opened Wrappers

  // Model label -> endpoint names in order; `clock(k)` is the k-th reading.
  datatype Config = Config(models: map<string, seq<string>>, cooldown: real, clock: nat -> real)

  datatype Table = Table(positions: map<string, nat>, cooldowns: map<(string, string), real>, ticks: nat)

  // What configuration loading guarantees.
  ghost predicate ValidConfig(c: Config) {
    && c.models != map[]
    && (forall m :: m in c.models ==> ValidEndpoints(c.models[m]))
    && c.cooldown > 0.0
    && Monotone(c.clock)
  }

  ghost predicate Monotone(clock: nat -> real) {
    forall i: nat, j: nat :: i <= j ==> clock(i) <= clock(j)
  }

  ghost predicate ValidEndpoints(endpoints: seq<string>) {
    && endpoints != []
    && (forall i, j :: 0 <= i < j < |endpoints| ==> endpoints[i] != endpoints[j])
  }

  ghost predicate ValidTable(c: Config, t: Table) {
    forall m :: m in t.positions ==> m in c.models && t.positions[m] < |c.models[m]|
  }

  // A configured model whose stored position is one of its replicas.
  predicate Known(c: Config, t: Table, model: string) {
    model in c.models && Position(t, model) < |c.models[model]|
  }

  const EMPTY_TABLE := Table(map[], map[], 0)

  function Position(t: Table, model: string): nat {
    if model in t.positions then t.positions[model] else 0
  }

  function Deadline(t: Table, model: string, endpoint: string): real {
    if (model, endpoint) in t.cooldowns then t.cooldowns[(model, endpoint)] else 0.0
  }

  // One step around the ring of n replicas; for i < 2n this is i % n.
  function Ring(i: nat, n: nat): nat
    requires i < 2 * n
  {
    if i < n then i else i - n
  }

  lemma RingIsModulo(i: nat, n: nat)
    requires i < 2 * n
    ensures Ring(i, n) == i % n
  {
  }

  // ------------------------------------------------------------------
  // Selection
  // ------------------------------------------------------------------

  // The scan from `offset` on: the index chosen, if any, and the clock readings taken.
  function Scan(c: Config, t: Table, model: string, excluded: set<string>, offset: nat): (r: (Option<nat>, nat))
    requires Known(c, t, model) && offset <= |c.models[model]|
    ensures r.0.Some? ==> r.0.value < |c.models[model]| && t.ticks < r.1
    ensures t.ticks <= r.1
    decreases |c.models[model]| - offset
  {
    var endpoints := c.models[model];
    if offset == |endpoints| then (None, t.ticks)
    else
      var index := Ring(Position(t, model) + offset, |endpoints|);
      if endpoints[index] in excluded then Scan(c, t, model, excluded, offset + 1)
      else if Deadline(t, model, endpoints[index]) <= c.clock(t.ticks) then (Some(index), t.ticks + 1)
      else Scan(c, t.(ticks := t.ticks + 1), model, excluded, offset + 1)
  }

  function Select(c: Config, t: Table, model: string, excluded: set<string>): (Table, Option<nat>)
    requires Known(c, t, model)
  {
    var (choice, ticks) := Scan(c, t, model, excluded, 0);
    match choice
    case None => (t.(ticks := ticks), None)
    case Some(index) =>
      (t.(positions := t.positions[model := Ring(index + 1, |c.models[model]|)], ticks := ticks), Some(index))
  }

  // What a failure asks for: the configured cooldown or a longer Retry-After.
  function Seconds(c: Config, retryAfter: Option<real>): real {
    if retryAfter.Some? && retryAfter.value > c.cooldown then retryAfter.value else c.cooldown
  }

  // The deadline is overwritten, counting from now.
  function Cool(c: Config, t: Table, model: string, endpoint: string, retryAfter: Option<real>): Table {
    t.(cooldowns := t.cooldowns[(model, endpoint) := c.clock(t.ticks) + Seconds(c, retryAfter)], ticks := t.ticks + 1)
  }

  // Some configured replica is past its deadline.
  predicate Ready(c: Config, t: Table, now: real) {
    exists model | model in c.models ::
      exists i | 0 <= i < |c.models[model]| :: Deadline(t, model, c.models[model][i]) <= now
  }

  // ------------------------------------------------------------------
  // The state as the program keeps it
  // ------------------------------------------------------------------

  // The candidates from the stored position on, each with its own clock reading.
  method FirstAvailable(c: Config, t: Table, model: string, excluded: set<string>)
    returns (choice: Option<nat>, ticks: nat)
    requires Known(c, t, model)
    ensures (choice, ticks) == Scan(c, t, model, excluded, 0)
  {
    var endpoints := c.models[model];
    var start := Position(t, model);
    ticks := t.ticks;
    for offset := 0 to |endpoints|
      invariant Scan(c, t, model, excluded, 0) == Scan(c, t.(ticks := ticks), model, excluded, offset)
    {
      var index := (start + offset) % |endpoints|;
      RingIsModulo(start + offset, |endpoints|);
      ghost var now := t.(ticks := ticks);
      assert Position(now, model) == start && Deadline(now, model, endpoints[index]) == Deadline(t, model, endpoints[index]);
      if endpoints[index] !in excluded {
        ticks := ticks + 1;
        if Deadline(t, model, endpoints[index]) <= c.clock(ticks - 1) {
          return Some(index), ticks;
        }
      }
    }
    return None, ticks;
  }

  class Gateway {
    const config: Config
    var positions: map<string, nat>
    var cooldowns: map<(string, string), real>
    var ticks: nat

    ghost predicate Valid()
      reads this
    {
      ValidConfig(config) && ValidTable(config, State())
    }

    ghost function State(): Table
      reads this
    {
      Table(positions, cooldowns, ticks)
    }

    constructor (config: Config)
      requires ValidConfig(config)
      ensures Valid() && this.config == config && State() == EMPTY_TABLE
    {
      this.config := config;
      positions, cooldowns, ticks := map[], map[], 0;
    }

    method Now() returns (now: real)
      modifies this`ticks
      ensures now == config.clock(old(ticks)) && ticks == old(ticks) + 1
    {
      now := config.clock(ticks);
      ticks := ticks + 1;
    }

    // The index chosen, or None for no_available_replica.
    method SelectReplica(model: string, excluded: set<string>) returns (choice: Option<nat>)
      requires Valid() && model in config.models
      modifies this`positions, this`ticks
      ensures Valid()
      ensures Known(config, old(State()), model)
      ensures (State(), choice) == Select(config, old(State()), model, excluded)
    {
      var n := |config.models[model]|;
      choice, ticks := FirstAvailable(config, Table(positions, cooldowns, ticks), model, excluded);
      if choice.Some? {
        positions := positions[model := (choice.value + 1) % n];
        RingIsModulo(choice.value + 1, n);
      }
    }

    method CoolDown(model: string, endpoint: string, retryAfter: Option<real>)
      requires Valid()
      modifies this`cooldowns, this`ticks
      ensures Valid()
      ensures State() == Cool(config, old(State()), model, endpoint, retryAfter)
    {
      var seconds := config.cooldown;
      if retryAfter.Some? && retryAfter.value > seconds {
        seconds := retryAfter.value;
      }
      var now := Now();
      cooldowns := cooldowns[(model, endpoint) := now + seconds];
    }

    method IsReady() returns (ready: bool)
      requires Valid()
      modifies this`ticks
      ensures Valid() && State() == old(State()).(ticks := old(ticks) + 1)
      ensures ready == Ready(config, old(State()), config.clock(old(ticks)))
    {
      var now := Now();
      ready := Ready(config, Table(positions, cooldowns, ticks), now);
    }
  }

  // ------------------------------------------------------------------
  // What one selection promises
  // ------------------------------------------------------------------

  // Endpoint j may be chosen by a selection that starts in state t.
  ghost predicate Eligible(c: Config, t: Table, model: string, excluded: set<string>, j: nat)
    requires model in c.models && j < |c.models[model]|
  {
    && c.models[model][j] !in excluded
    && Deadline(t, model, c.models[model][j]) <= c.clock(t.ticks)
  }

  // Steps around the ring of n from `start` to j.
  function Distance(start: nat, j: nat, n: nat): (d: nat)
    requires start < n && j < n
    ensures d < n && Ring(start + d, n) == j
  {
    if start <= j then j - start else j + n - start
  }

  lemma {:induction false} ScanSound(c: Config, t: Table, model: string, excluded: set<string>, offset: nat)
    requires Known(c, t, model) && offset <= |c.models[model]|
    ensures var (choice, ticks) := Scan(c, t, model, excluded, offset);
            choice.Some? ==>
              && t.ticks < ticks
              && offset <= Distance(Position(t, model), choice.value, |c.models[model]|)
              && c.models[model][choice.value] !in excluded
              && Deadline(t, model, c.models[model][choice.value]) <= c.clock(ticks - 1)
    decreases |c.models[model]| - offset
  {
    if offset == |c.models[model]| {
    } else if Candidate(c, t, model, offset) in excluded {
      ScanSound(c, t, model, excluded, offset + 1);
    } else if Deadline(t, model, Candidate(c, t, model, offset)) > c.clock(t.ticks) {
      ScanSound(c, t.(ticks := t.ticks + 1), model, excluded, offset + 1);
    }
  }

  lemma {:induction false} ScanNearest(c: Config, t: Table, model: string, excluded: set<string>, offset: nat, j: nat)
    requires Monotone(c.clock) && Known(c, t, model) && j < |c.models[model]|
    requires Eligible(c, t, model, excluded, j)
    requires offset <= Distance(Position(t, model), j, |c.models[model]|)
    ensures var choice := Scan(c, t, model, excluded, offset).0;
            var n, start := |c.models[model]|, Position(t, model);
            choice.Some? && Distance(start, choice.value, n) <= Distance(start, j, n)
    decreases |c.models[model]| - offset
  {
    var n, start := |c.models[model]|, Position(t, model);
    var index := Ring(start + offset, n);
    if index == j {
    } else {
      if c.models[model][index] in excluded {
        ScanNearest(c, t, model, excluded, offset + 1, j);
      } else if Deadline(t, model, c.models[model][index]) > c.clock(t.ticks) {
        ScanNearest(c, t.(ticks := t.ticks + 1), model, excluded, offset + 1, j);
      }
    }
  }

  // A selection picks an endpoint that is neither excluded nor cooling when it
  // is read, no eligible endpoint is nearer to the stored position, and it
  // fails only if none was eligible when it began.
  lemma SelectFinds(c: Config, t: Table, model: string, excluded: set<string>)
    requires ValidConfig(c) && Known(c, t, model)
    ensures var (after, choice) := Select(c, t, model, excluded);
            var n, start := |c.models[model]|, Position(t, model);
            && Known(c, after, model) && after.cooldowns == t.cooldowns && t.ticks <= after.ticks
            && (choice.Some? ==>
                  && t.ticks < after.ticks
                  && Position(after, model) == Ring(choice.value + 1, n)
                  && c.models[model][choice.value] !in excluded
                  && Deadline(t, model, c.models[model][choice.value]) <= c.clock(after.ticks - 1))
            && (choice.None? ==> after.positions == t.positions)
            && (forall j :: 0 <= j < n && Eligible(c, t, model, excluded, j) ==>
                  choice.Some? && Distance(start, choice.value, n) <= Distance(start, j, n))
  {
    ScanSound(c, t, model, excluded, 0);
    forall j | 0 <= j < |c.models[model]| && Eligible(c, t, model, excluded, j)
      ensures Select(c, t, model, excluded).1.Some?
      ensures Distance(Position(t, model), Select(c, t, model, excluded).1.value, |c.models[model]|)
           <= Distance(Position(t, model), j, |c.models[model]|)
    {
      ScanNearest(c, t, model, excluded, 0, j);
    }
  }

  // How many candidates from offset `first` on, short of `last`, cost a reading of the clock
  function Readings(endpoints: seq<string>, excluded: set<string>, start: nat, first: nat, last: nat): nat
    requires start < |endpoints| && first <= last <= |endpoints|
    decreases |endpoints| - first
  {
    if first == last then 0
    else
      (if endpoints[Ring(start + first, |endpoints|)] in excluded then 0 else 1)
      + Readings(endpoints, excluded, start, first + 1, last)
  }

  // The candidate at this offset is past its deadline when its turn to be read comes.
  predicate PastInTurn(c: Config, t: Table, model: string, excluded: set<string>, first: nat, offset: nat)
    requires Known(c, t, model)
  {
    && first <= offset < |c.models[model]|
    && Candidate(c, t, model, offset) !in excluded
    && Deadline(t, model, Candidate(c, t, model, offset))
       <= c.clock(t.ticks + Readings(c.models[model], excluded, Position(t, model), first, offset))
  }

  function Candidate(c: Config, t: Table, model: string, offset: nat): string
    requires Known(c, t, model) && offset < |c.models[model]|
  {
    c.models[model][Ring(Position(t, model) + offset, |c.models[model]|)]
  }

  // A scan succeeds exactly if some candidate is past its deadline in its turn.
  lemma {:induction false} ScanExactly(c: Config, t: Table, model: string, excluded: set<string>, first: nat)
    requires Known(c, t, model) && first <= |c.models[model]|
    ensures Scan(c, t, model, excluded, first).0.Some?
       <==> exists offset: nat :: PastInTurn(c, t, model, excluded, first, offset)
    decreases |c.models[model]| - first
  {
    if first == |c.models[model]| {
    } else if PastInTurn(c, t, model, excluded, first, first) {
    } else {
      var endpoint := Candidate(c, t, model, first);
      var read := if endpoint in excluded then t else t.(ticks := t.ticks + 1);
      var next := first + 1;
      ScanExactly(c, read, model, excluded, next);
      forall offset: nat
        ensures PastInTurn(c, t, model, excluded, first, offset) <==> PastInTurn(c, read, model, excluded, next, offset)
      {
        TurnsAreKept(c, t, read, model, excluded, first, offset);
      }
    }
  }

  // Behind a candidate that is passed over, the turns are those of the scan that goes on.
  lemma TurnsAreKept(c: Config, t: Table, read: Table, model: string, excluded: set<string>, first: nat, offset: nat)
    requires Known(c, t, model) && first < |c.models[model]| && !PastInTurn(c, t, model, excluded, first, first)
    requires read == if Candidate(c, t, model, first) in excluded then t else t.(ticks := t.ticks + 1)
    ensures PastInTurn(c, t, model, excluded, first, offset) <==> PastInTurn(c, read, model, excluded, first + 1, offset)
  {
  }

  // ------------------------------------------------------------------
  // Runs: any interleaving of the atomic steps of any number of requests
  // ------------------------------------------------------------------

  datatype Step =
    | Pick(model: string, excluded: set<string>)
    | Fail(model: string, endpoint: string, retryAfter: Option<real>)
    | Read

  ghost predicate Enabled(c: Config, step: Step) {
    step.Read? || step.model in c.models
  }

  function Next(c: Config, t: Table, step: Step): Table
    requires step.Pick? ==> Known(c, t, step.model)
  {
    match step
    case Pick(model, excluded) => Select(c, t, model, excluded).0
    case Fail(model, endpoint, retryAfter) => Cool(c, t, model, endpoint, retryAfter)
    case Read => t.(ticks := t.ticks + 1)
  }

  lemma NextValid(c: Config, t: Table, step: Step)
    requires ValidConfig(c) && ValidTable(c, t) && Enabled(c, step)
    ensures step.Pick? ==> Known(c, t, step.model)
    ensures ValidTable(c, Next(c, t, step)) && t.ticks <= Next(c, t, step).ticks
  {
  }

  ghost predicate AllEnabled(c: Config, steps: seq<Step>) {
    forall i :: 0 <= i < |steps| ==> Enabled(c, steps[i])
  }

  ghost function Run(c: Config, t: Table, steps: seq<Step>): (r: Table)
    requires ValidConfig(c) && ValidTable(c, t) && AllEnabled(c, steps)
    ensures ValidTable(c, r) && t.ticks <= r.ticks
    decreases |steps|
  {
    if steps == [] then t
    else
      NextValid(c, t, steps[0]);
      Run(c, Next(c, t, steps[0]), steps[1..])
  }

  // The index a step chooses for one model, as a sequence of at most one.
  function Choice(c: Config, t: Table, step: Step, model: string): seq<nat>
    requires step.Pick? ==> Known(c, t, step.model)
  {
    if !step.Pick? || step.model != model then []
    else
      match Select(c, t, model, step.excluded).1
      case Some(index) => [index]
      case None => []
  }

  // The indices chosen by the successful selections for one model, in order.
  ghost function Chosen(c: Config, t: Table, steps: seq<Step>, model: string): seq<nat>
    requires ValidConfig(c) && ValidTable(c, t) && AllEnabled(c, steps)
    decreases |steps|
  {
    if steps == [] then []
    else
      NextValid(c, t, steps[0]);
      Choice(c, t, steps[0], model) + Chosen(c, Next(c, t, steps[0]), steps[1..], model)
  }

  // Endpoint j can be chosen whenever a selection for its model is made.
  ghost predicate AlwaysEligible(c: Config, t: Table, steps: seq<Step>, model: string, j: nat)
    requires ValidConfig(c) && ValidTable(c, t) && AllEnabled(c, steps)
    requires model in c.models && j < |c.models[model]|
    decreases |steps|
  {
    if steps == [] then true
    else
      NextValid(c, t, steps[0]);
      && (steps[0].Pick? && steps[0].model == model ==> Eligible(c, t, model, steps[0].excluded, j))
      && AlwaysEligible(c, Next(c, t, steps[0]), steps[1..], model, j)
  }

  // Each selection of another endpoint brings the position strictly nearer to j.
  lemma Nearer(start: nat, i: nat, j: nat, n: nat)
    requires start < n && i < n && j < n && i != j && Distance(start, i, n) <= Distance(start, j, n)
    ensures Distance(Ring(i + 1, n), j, n) == Distance(start, j, n) - Distance(start, i, n) - 1
  {
  }

  // Starvation freedom: an endpoint that stays eligible is chosen after at most
  // as many other choices as its distance from the stored position.
  lemma {:induction false} NoStarvation(c: Config, t: Table, steps: seq<Step>, model: string, j: nat)
    requires ValidConfig(c) && ValidTable(c, t) && AllEnabled(c, steps)
    requires model in c.models && j < |c.models[model]|
    requires AlwaysEligible(c, t, steps, model, j)
    ensures var d := Distance(Position(t, model), j, |c.models[model]|);
            var chosen := Chosen(c, t, steps, model);
            |chosen| > d ==> j in chosen[..d + 1]
    decreases |steps|
  {
    if steps == [] {
    } else {
      NextValid(c, t, steps[0]);
      var t' := Next(c, t, steps[0]);
      NoStarvation(c, t', steps[1..], model, j);
      var first, rest := Choice(c, t, steps[0], model), Chosen(c, t', steps[1..], model);
      if steps[0].Pick? && steps[0].model == model {
        PickNears(c, t, model, steps[0].excluded, j);
        InPrefix(first[0], rest, j, Distance(Position(t', model), j, |c.models[model]|),
                 Distance(Position(t, model), j, |c.models[model]|));
      } else {
        OthersKeepPosition(c, t, steps[0], model);
        assert first + rest == rest;
      }
    }
  }

  // A selection while j is eligible chooses j or moves nearer to it.
  lemma PickNears(c: Config, t: Table, model: string, excluded: set<string>, j: nat)
    requires ValidConfig(c) && Known(c, t, model) && j < |c.models[model]| && Eligible(c, t, model, excluded, j)
    ensures var (t', choice) := Select(c, t, model, excluded);
            && choice.Some?
            && (choice.value != j ==> Distance(Position(t', model), j, |c.models[model]|)
                                      < Distance(Position(t, model), j, |c.models[model]|))
  {
    SelectFinds(c, t, model, excluded);
    var i := Select(c, t, model, excluded).1.value;
    if i != j { Nearer(Position(t, model), i, j, |c.models[model]|); }
  }

  lemma InPrefix(first: nat, rest: seq<nat>, j: nat, near: nat, far: nat)
    requires first != j ==> near < far
    requires |rest| > near ==> j in rest[..near + 1]
    ensures |rest| >= far ==> j in ([first] + rest)[..far + 1]
  {
    if |rest| >= far {
      if first == j {
        assert ([first] + rest)[..far + 1][0] == j;
      } else {
        var k :| 0 <= k < near + 1 && rest[..near + 1][k] == j;
        assert ([first] + rest)[..far + 1][k + 1] == j;
      }
    }
  }

  lemma OthersKeepPosition(c: Config, t: Table, step: Step, model: string)
    requires step.Pick? ==> Known(c, t, step.model) && step.model != model
    ensures Position(Next(c, t, step), model) == Position(t, model)
  {
  }

  // In particular, among any n consecutive choices for a model of n endpoints.
  lemma EveryRound(c: Config, t: Table, steps: seq<Step>, model: string, j: nat)
    requires ValidConfig(c) && ValidTable(c, t) && AllEnabled(c, steps)
    requires model in c.models && j < |c.models[model]|
    requires AlwaysEligible(c, t, steps, model, j)
    requires |Chosen(c, t, steps, model)| >= |c.models[model]|
    ensures j in Chosen(c, t, steps, model)[..|c.models[model]|]
  {
    NoStarvation(c, t, steps, model, j);
    var d := Distance(Position(t, model), j, |c.models[model]|);
    var chosen := Chosen(c, t, steps, model);
    assert chosen[..d + 1] <= chosen[..|c.models[model]|];
  }

  // ------------------------------------------------------------------
  // Fairness
  // ------------------------------------------------------------------

  ghost predicate AllEligible(c: Config, t: Table, steps: seq<Step>, model: string)
    requires ValidConfig(c) && ValidTable(c, t) && AllEnabled(c, steps) && model in c.models
  {
    forall j :: 0 <= j < |c.models[model]| ==> AlwaysEligible(c, t, steps, model, j)
  }

  lemma AllEligibleStep(c: Config, t: Table, steps: seq<Step>, model: string)
    requires ValidConfig(c) && ValidTable(c, t) && AllEnabled(c, steps) && steps != []
    requires model in c.models && AllEligible(c, t, steps, model)
    ensures ValidTable(c, Next(c, t, steps[0]))
    ensures AllEligible(c, Next(c, t, steps[0]), steps[1..], model)
    ensures if steps[0].Pick? && steps[0].model == model
            then
              && Choice(c, t, steps[0], model) == [Position(t, model)]
              && Position(Next(c, t, steps[0]), model) == Ring(Position(t, model) + 1, |c.models[model]|)
            else
              && Choice(c, t, steps[0], model) == []
              && Position(Next(c, t, steps[0]), model) == Position(t, model)
  {
    NextValid(c, t, steps[0]);
    forall j | 0 <= j < |c.models[model]|
      ensures AlwaysEligible(c, Next(c, t, steps[0]), steps[1..], model, j)
    {
      assert AlwaysEligible(c, t, steps, model, j);
    }
    if steps[0].Pick? && steps[0].model == model {
      assert AlwaysEligible(c, t, steps, model, Position(t, model));
      SelectFinds(c, t, model, steps[0].excluded);
    } else {
      OthersKeepPosition(c, t, steps[0], model);
    }
  }

  // Each index is the successor of the one before, from `start` on.
  ghost predicate GoesRound(chosen: seq<nat>, start: nat, n: nat)
    requires start < n
  {
    chosen == [] || (chosen[0] == start && GoesRound(chosen[1..], Ring(start + 1, n), n))
  }

  // With every endpoint eligible throughout, selections go round the ring from
  // the stored position on.
  lemma {:induction false} RoundRobin(c: Config, t: Table, steps: seq<Step>, model: string)
    requires ValidConfig(c) && ValidTable(c, t) && AllEnabled(c, steps)
    requires model in c.models && AllEligible(c, t, steps, model)
    ensures GoesRound(Chosen(c, t, steps, model), Position(t, model), |c.models[model]|)
    decreases |steps|
  {
    if steps == [] {
    } else {
      AllEligibleStep(c, t, steps, model);
      var t' := Next(c, t, steps[0]);
      RoundRobin(c, t', steps[1..], model);
      Prepend(Choice(c, t, steps[0], model), Chosen(c, t', steps[1..], model), Position(t, model), Position(t', model),
              |c.models[model]|);
    }
  }

  lemma Prepend(first: seq<nat>, rest: seq<nat>, start: nat, next: nat, n: nat)
    requires start < n && next < n && GoesRound(rest, next, n)
    requires (first == [start] && next == Ring(start + 1, n)) || (first == [] && next == start)
    ensures GoesRound(first + rest, start, n)
  {
    if first == [] { assert first + rest == rest; } else { assert (first + rest)[1..] == rest; }
  }

  lemma QuotientIsUnique(a: nat, q: nat, r: nat, n: nat)
    requires a == q * n + r && r < n
    ensures a / n == q && a % n == r
  {
    var q', r' := a / n, a % n;
    assert a == q' * n + r';
    if q' < q { MultiplesApart(q', q, n); }
    if q < q' { MultiplesApart(q, q', n); }
  }

  lemma {:induction false} MultiplesApart(p: nat, q: nat, n: nat)
    requires p < q
    ensures p * n + n <= q * n
  {
    if p + 1 < q { MultiplesApart(p, q - 1, n); }
    assert q * n == (q - 1) * n + n;
  }

  // How often j comes up among the first m positions of a walk around the ring.
  function Visits(start: nat, m: nat, j: nat, n: nat): nat
    requires start < n && j < n
    decreases m
  {
    if m == 0 then 0
    else (if start == j then 1 else 0) + Visits(Ring(start + 1, n), m - 1, j, n)
  }

  // Counting by the distance to j: m visits of which d come before the first j.
  lemma {:induction false} VisitCount(start: nat, m: nat, j: nat, n: nat)
    requires start < n && j < n
    ensures Visits(start, m, j, n) == (m + n - 1 - Distance(start, j, n)) / n
    decreases m
  {
    if m == 0 {
      QuotientIsUnique(n - 1 - Distance(start, j, n), 0, n - 1 - Distance(start, j, n), n);
    } else {
      VisitCount(Ring(start + 1, n), m - 1, j, n);
      if start == j {
        var before := m - 1 + n - 1 - Distance(Ring(start + 1, n), j, n);
        assert before + n == m + n - 1;
        DivideAddMultiple(before, n);
      }
    }
  }

  lemma DivideAddMultiple(a: nat, n: nat)
    requires n > 0
    ensures (a + n) / n == a / n + 1
  {
    assert a + n == (a / n + 1) * n + a % n;
    QuotientIsUnique(a + n, a / n + 1, a % n, n);
  }

  lemma {:induction false} CountVisits(chosen: seq<nat>, start: nat, j: nat, n: nat)
    requires start < n && j < n && GoesRound(chosen, start, n)
    ensures multiset(chosen)[j] == Visits(start, |chosen|, j, n)
    decreases |chosen|
  {
    if chosen == [] {
    } else {
      CountVisits(chosen[1..], Ring(start + 1, n), j, n);
      assert chosen == [chosen[0]] + chosen[1..];
      assert multiset(chosen) == multiset{chosen[0]} + multiset(chosen[1..]);
    }
  }

  // Of m selections, each of the n endpoints gets floor(m/n) or ceil(m/n).
  lemma Fairness(c: Config, t: Table, steps: seq<Step>, model: string, j: nat)
    requires ValidConfig(c) && ValidTable(c, t) && AllEnabled(c, steps)
    requires model in c.models && j < |c.models[model]| && AllEligible(c, t, steps, model)
    ensures var chosen, n := Chosen(c, t, steps, model), |c.models[model]|;
            |chosen| / n <= multiset(chosen)[j] <= (|chosen| + n - 1) / n
  {
    var chosen, n := Chosen(c, t, steps, model), |c.models[model]|;
    RoundRobin(c, t, steps, model);
    CountVisits(chosen, Position(t, model), j, n);
    VisitBounds(Position(t, model), |chosen|, j, n);
  }

  lemma VisitBounds(start: nat, m: nat, j: nat, n: nat)
    requires start < n && j < n
    ensures m / n <= Visits(start, m, j, n) <= (m + n - 1) / n
  {
    VisitCount(start, m, j, n);
    var d := Distance(start, j, n);
    DivideMonotone(m, m + n - 1 - d, n);
    DivideMonotone(m + n - 1 - d, m + n - 1, n);
  }

  lemma DivideMonotone(a: nat, b: nat, n: nat)
    requires n > 0 && a <= b
    ensures a / n <= b / n
  {
    if b / n < a / n { MultiplesApart(b / n, a / n, n); }
  }

  // ------------------------------------------------------------------
  // Readiness
  // ------------------------------------------------------------------

  // While the clock stands still, the gateway is ready exactly when some model
  // has a replica to select.
  lemma ReadyMeansSelectable(c: Config, t: Table)
    requires ValidConfig(c) && ValidTable(c, t)
    requires forall k: nat :: c.clock(k) == c.clock(t.ticks)
    ensures Ready(c, t, c.clock(t.ticks))
       <==> exists model :: model in c.models && Select(c, t, model, {}).1.Some?
  {
    if Ready(c, t, c.clock(t.ticks)) {
      var model, j :| model in c.models && 0 <= j < |c.models[model]|
                      && Deadline(t, model, c.models[model][j]) <= c.clock(t.ticks);
      assert Eligible(c, t, model, {}, j);
      SelectFinds(c, t, model, {});
    }
    if exists model :: model in c.models && Select(c, t, model, {}).1.Some? {
      var model :| model in c.models && Select(c, t, model, {}).1.Some?;
      SelectFinds(c, t, model, {});
      var j := Select(c, t, model, {}).1.value;
      assert Deadline(t, model, c.models[model][j]) <= c.clock(t.ticks);
    }
  }

  // Readiness lasts: until a failure is recorded, some selection keeps succeeding.
  lemma ReadyLasts(c: Config, t: Table, steps: seq<Step>)
    requires ValidConfig(c) && ValidTable(c, t) && AllEnabled(c, steps)
    requires Ready(c, t, c.clock(t.ticks))
    requires forall i :: 0 <= i < |steps| ==> !steps[i].Fail?
    ensures exists model :: model in c.models && Select(c, Run(c, t, steps), model, {}).1.Some?
  {
    var model, j :| model in c.models && 0 <= j < |c.models[model]|
                    && Deadline(t, model, c.models[model][j]) <= c.clock(t.ticks);
    var later := Run(c, t, steps);
    DeadlineKept(c, t, steps, model, c.models[model][j]);
    assert Eligible(c, later, model, {}, j);
    SelectFinds(c, later, model, {});
  }

  // Only a failure of that endpoint changes its deadline.
  lemma {:induction false} DeadlineKept(c: Config, t: Table, steps: seq<Step>, model: string, endpoint: string)
    requires ValidConfig(c) && ValidTable(c, t) && AllEnabled(c, steps)
    requires forall i :: 0 <= i < |steps| ==>
               !Rival(steps[i], model, endpoint)
    ensures Deadline(Run(c, t, steps), model, endpoint) == Deadline(t, model, endpoint)
    decreases |steps|
  {
    if steps == [] {
    } else {
      NextValid(c, t, steps[0]);
      DeadlineKept(c, Next(c, t, steps[0]), steps[1..], model, endpoint);
    }
  }

  // ------------------------------------------------------------------
  // What failures of one endpoint leave behind
  // ------------------------------------------------------------------

  predicate Rival(step: Step, model: string, endpoint: string) {
    step.Fail? && step.model == model && step.endpoint == endpoint
  }

  // The seconds the last recorded failure of that endpoint asked for
  function LastAsked(c: Config, steps: seq<Step>, model: string, endpoint: string): Option<real> {
    if steps == [] then None
    else
      var later := LastAsked(c, steps[1..], model, endpoint);
      if later.Some? then later
      else if Rival(steps[0], model, endpoint) then Some(Seconds(c, steps[0].retryAfter))
      else None
  }

  // The last recorded failure of an endpoint in a run: when it was recorded, and what it asked for
  datatype Failure = Failure(at: real, seconds: real)

  ghost function LastFailure(c: Config, t: Table, steps: seq<Step>, model: string, endpoint: string): Option<Failure>
    requires ValidConfig(c) && ValidTable(c, t) && AllEnabled(c, steps)
    decreases |steps|
  {
    if steps == [] then None
    else
      NextValid(c, t, steps[0]);
      var later := LastFailure(c, Next(c, t, steps[0]), steps[1..], model, endpoint);
      if later.Some? then later
      else if Rival(steps[0], model, endpoint) then Some(Failure(c.clock(t.ticks), Seconds(c, steps[0].retryAfter)))
      else None
  }

  // From reading `ticks` on the clock does not move.
  ghost predicate Still(c: Config, ticks: nat) {
    forall k: nat :: ticks <= k ==> c.clock(k) == c.clock(ticks)
  }

  // Only the last failure counts, from the moment it was recorded.
  lemma {:induction false} LastFailureCounts(c: Config, t: Table, steps: seq<Step>, model: string, endpoint: string)
    requires ValidConfig(c) && ValidTable(c, t) && AllEnabled(c, steps)
    ensures var last, later := LastFailure(c, t, steps, model, endpoint), Run(c, t, steps);
            && Deadline(later, model, endpoint)
               == (if last.None? then Deadline(t, model, endpoint) else last.value.at + last.value.seconds)
            && LastAsked(c, steps, model, endpoint) == (if last.None? then None else Some(last.value.seconds))
            && (last.Some? ==> c.clock(t.ticks) <= last.value.at <= c.clock(later.ticks) && last.value.seconds > 0.0)
    decreases |steps|
  {
    if steps == [] {
    } else {
      NextValid(c, t, steps[0]);
      var t' := Next(c, t, steps[0]);
      LastFailureCounts(c, t', steps[1..], model, endpoint);
      assert c.clock(t.ticks) <= c.clock(t'.ticks) <= c.clock(Run(c, t, steps).ticks);
    }
  }

  // The longer of the configured cooldown and a Retry-After
  predicate Longer(seconds: real, cooldown: real, retryAfter: Option<real>) {
    if retryAfter.Some? && retryAfter.value > cooldown then seconds == retryAfter.value else seconds == cooldown
  }

  // Recording a failure sets that endpoint's deadline and no other, and moves no position.
  lemma CoolExactly(c: Config, t: Table, model: string, endpoint: string, retryAfter: Option<real>)
    ensures var later := Cool(c, t, model, endpoint, retryAfter);
            && later.positions == t.positions && later.ticks == t.ticks + 1
            && Longer(Deadline(later, model, endpoint) - c.clock(t.ticks), c.cooldown, retryAfter)
            && forall m, e :: (m, e) != (model, endpoint) ==> Deadline(later, m, e) == Deadline(t, m, e)
  {
  }

  // The last failure of the endpoint among the steps, by index
  ghost predicate FailureAt(c: Config, t: Table, steps: seq<Step>, model: string, endpoint: string, i: nat, failure: Failure)
    requires ValidConfig(c) && ValidTable(c, t) && AllEnabled(c, steps)
  {
    && i < |steps| && steps[i].Fail? && steps[i].model == model && steps[i].endpoint == endpoint
    && (forall j :: i < j < |steps| ==> !(steps[j].Fail? && steps[j].model == model && steps[j].endpoint == endpoint))
    && failure.at == c.clock(Run(c, t, steps[..i]).ticks)
    && Longer(failure.seconds, c.cooldown, steps[i].retryAfter)
  }

  lemma {:induction false} LastFailureExactly(c: Config, t: Table, steps: seq<Step>, model: string, endpoint: string)
    requires ValidConfig(c) && ValidTable(c, t) && AllEnabled(c, steps)
    ensures var last := LastFailure(c, t, steps, model, endpoint);
            if last.Some? then exists i: nat :: FailureAt(c, t, steps, model, endpoint, i, last.value)
            else forall i :: 0 <= i < |steps| ==> !(steps[i].Fail? && steps[i].model == model && steps[i].endpoint == endpoint)
    decreases |steps|
  {
    if steps == [] {
    } else {
      NextValid(c, t, steps[0]);
      var t', rest := Next(c, t, steps[0]), steps[1..];
      LastFailureExactly(c, t', rest, model, endpoint);
      assert forall i :: 1 <= i < |steps| ==> steps[i] == rest[i - 1];
      var later := LastFailure(c, t', rest, model, endpoint);
      if later.Some? {
        var i: nat :| FailureAt(c, t', rest, model, endpoint, i, later.value);
        assert steps[..i + 1][1..] == rest[..i];
        assert FailureAt(c, t, steps, model, endpoint, i + 1, later.value);
      } else if Rival(steps[0], model, endpoint) {
        assert FailureAt(c, t, steps, model, endpoint, 0, LastFailure(c, t, steps, model, endpoint).value);
      }
    }
  }

  lemma {:induction false} AskedByRival(c: Config, steps: seq<Step>, model: string, endpoint: string)
    ensures LastAsked(c, steps, model, endpoint).None? <==> forall i :: 0 <= i < |steps| ==> !Rival(steps[i], model, endpoint)
    ensures ValidConfig(c) && LastAsked(c, steps, model, endpoint).Some? ==> LastAsked(c, steps, model, endpoint).value > 0.0
  {
    if steps == [] {
    } else {
      AskedByRival(c, steps[1..], model, endpoint);
      assert forall i :: 1 <= i < |steps| ==> steps[i] == steps[1..][i - 1];
    }
  }
}
