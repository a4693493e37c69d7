/**
 Opening one upstream response with bounded failover.  The table of positions and
 cooldowns is shared, so at every await other requests may take any number of
 atomic steps; a script lists what they do there and what the transport answers.
 */
module Failover {
  import opened Wrappers
  import opened Scheduler

  datatype Fault = NoReplica | Refused | GatewayFault(status: nat) | Cancelled | OtherFault

  // What sending a request comes to: a refused connection, another failure or
  // cancellation, or a response with its status and parsed Retry-After.
  datatype Reply = ConnectFailed | Raised(fault: Fault) | Answered(status: nat, retryAfter: Option<real>)

  datatype Attempt = Attempt(duringSend: seq<Step>, reply: Reply, duringClose: seq<Step>, closeFault: Option<Fault>)

  const ATTEMPTS := 2

  // What one request does, in order.  A response is named by its attempt.
  datatype Entry =
    | Sent(attempt: nat, endpoint: string, deadline: real, at: real)
    | Handed(attempt: nat)
    | Cooled(attempt: nat, endpoint: string, before: real, deadline: real, at: real)
    | CloseCalled(attempt: nat)

  datatype Opening =
    | Opened(attempt: nat, status: nat)
    | Failed(fault: Fault)
    | LoopExhausted   // the raise after the loop

  datatype Trace = Trace(table: Table, entries: seq<Entry>, result: Opening)

  // One pass of the loop: `next` is None when it goes on to another attempt.
  datatype Turn = Turn(table: Table, entries: seq<Entry>, tried: set<string>, next: Option<Opening>)

  predicate Retryable(status: nat) {
    status in {429, 502, 503, 504}
  }

  ghost predicate ValidScript(c: Config, script: seq<Attempt>) {
    && |script| == ATTEMPTS
    && forall k :: 0 <= k < |script| ==> AllEnabled(c, script[k].duringSend) && AllEnabled(c, script[k].duringClose)
  }

  // The availability check: is some endpoint from index i on neither excluded nor cooling?
  function Alternate(c: Config, t: Table, model: string, excluded: set<string>, i: nat): (r: (bool, nat))
    requires model in c.models && i <= |c.models[model]|
    ensures t.ticks <= r.1
    decreases |c.models[model]| - i
  {
    if i == |c.models[model]| then (false, t.ticks)
    else if c.models[model][i] in excluded then Alternate(c, t, model, excluded, i + 1)
    else if Deadline(t, model, c.models[model][i]) <= c.clock(t.ticks) then (true, t.ticks + 1)
    else Alternate(c, t.(ticks := t.ticks + 1), model, excluded, i + 1)
  }

  function Cooling(c: Config, t: Table, model: string, endpoint: string, attempt: nat, retryAfter: Option<real>): Entry {
    Cooled(attempt, endpoint, Deadline(t, model, endpoint),
           Deadline(Cool(c, t, model, endpoint, retryAfter), model, endpoint), c.clock(t.ticks))
  }

  // The first attempt gives its response up when the availability check finds somewhere else to go.
  ghost function AfterRetryable(c: Config, t: Table, model: string, excluded: set<string>, attempt: nat, status: nat,
                                script: seq<Attempt>): Turn
    requires ValidConfig(c) && ValidTable(c, t) && model in c.models && ValidScript(c, script) && attempt < ATTEMPTS
  {
    if attempt > 0 then Turn(t, [], {}, Some(Opened(attempt, status)))
    else
      var (available, ticks) := Alternate(c, t, model, excluded, 0);
      if !available then Turn(t.(ticks := ticks), [], {}, Some(Opened(attempt, status)))
      else
        var closed := Run(c, t.(ticks := ticks), script[attempt].duringClose);
        var fault := script[attempt].closeFault;
        Turn(closed, [CloseCalled(attempt)], {}, if fault.Some? then Some(Failed(fault.value)) else None)
  }

  ghost function AfterReply(c: Config, t: Table, model: string, excluded: set<string>, attempt: nat, endpoint: string,
                            script: seq<Attempt>): Turn
    requires ValidConfig(c) && ValidTable(c, t) && model in c.models && ValidScript(c, script) && attempt < ATTEMPTS
  {
    match script[attempt].reply
    case Raised(fault) => Turn(t, [], {}, Some(Failed(fault)))
    case ConnectFailed =>
      Turn(Cool(c, t, model, endpoint, None), [Cooling(c, t, model, endpoint, attempt, None)], {},
           if attempt == 0 then None else Some(Failed(Refused)))
    case Answered(status, retryAfter) =>
      if !Retryable(status) then Turn(t, [Handed(attempt)], {}, Some(Opened(attempt, status)))
      else
        var turn := AfterRetryable(c, Cool(c, t, model, endpoint, retryAfter), model, excluded, attempt, status, script);
        turn.(entries := [Handed(attempt), Cooling(c, t, model, endpoint, attempt, retryAfter)] + turn.entries)
  }

  ghost function TakeTurn(c: Config, t: Table, model: string, excluded: set<string>, attempt: nat, script: seq<Attempt>): Turn
    requires ValidConfig(c) && ValidTable(c, t) && model in c.models && ValidScript(c, script) && attempt < ATTEMPTS
  {
    NextValid(c, t, Pick(model, excluded));
    var (selected, choice) := Select(c, t, model, excluded);
    if choice.None? then Turn(selected, [], {}, Some(Failed(NoReplica)))
    else
      var endpoint := c.models[model][choice.value];
      var sent := Sent(attempt, endpoint, Deadline(selected, model, endpoint), c.clock(selected.ticks - 1));
      var answered := Run(c, selected, script[attempt].duringSend);
      var turn := AfterReply(c, answered, model, excluded + {endpoint}, attempt, endpoint, script);
      turn.(entries := [sent] + turn.entries, tried := {endpoint})
  }

  lemma TurnValid(c: Config, t: Table, model: string, excluded: set<string>, attempt: nat, script: seq<Attempt>)
    requires ValidConfig(c) && ValidTable(c, t) && model in c.models && ValidScript(c, script) && attempt < ATTEMPTS
    ensures var later := TakeTurn(c, t, model, excluded, attempt, script).table;
            ValidTable(c, later) && t.ticks <= later.ticks
  {
    NextValid(c, t, Pick(model, excluded));
  }

  ghost function Attempts(c: Config, t: Table, model: string, excluded: set<string>, attempt: nat, script: seq<Attempt>): Trace
    requires ValidConfig(c) && ValidTable(c, t) && model in c.models && ValidScript(c, script) && attempt <= ATTEMPTS
    decreases ATTEMPTS - attempt
  {
    if attempt == ATTEMPTS then Trace(t, [], LoopExhausted)
    else
      TurnValid(c, t, model, excluded, attempt, script);
      var turn := TakeTurn(c, t, model, excluded, attempt, script);
      if turn.next.Some? then Trace(turn.table, turn.entries, turn.next.value)
      else Before(turn.entries, Attempts(c, turn.table, model, excluded + turn.tried, attempt + 1, script))
  }

  function Before(entries: seq<Entry>, rest: Trace): Trace {
    Trace(rest.table, entries + rest.entries, rest.result)
  }

  // ------------------------------------------------------------------
  // The program
  // ------------------------------------------------------------------

  // What other requests do to the table while this one waits.
  method Interfere(g: Gateway, steps: seq<Step>)
    requires g.Valid() && AllEnabled(g.config, steps)
    modifies g
    ensures g.Valid()
    ensures g.State() == Run(g.config, old(g.State()), steps)
  {
    for n := 0 to |steps|
      invariant g.Valid()
      invariant Run(g.config, old(g.State()), steps) == Run(g.config, g.State(), steps[n..])
    {
      assert steps[n..][0] == steps[n] && steps[n..][1..] == steps[n + 1..];
      NextValid(g.config, g.State(), steps[n]);
      match steps[n] {
        case Pick(model, excluded) =>
          var _ := g.SelectReplica(model, excluded);
        case Fail(model, endpoint, retryAfter) =>
          g.CoolDown(model, endpoint, retryAfter);
        case Read =>
          var _ := g.Now();
      }
    }
  }

  method FindAlternate(g: Gateway, model: string, excluded: set<string>) returns (available: bool)
    requires g.Valid() && model in g.config.models
    modifies g`ticks
    ensures g.Valid()
    ensures var (found, ticks) := Alternate(g.config, old(g.State()), model, excluded, 0);
            available == found && g.State() == old(g.State()).(ticks := ticks)
  {
    available, g.ticks := AnyAlternate(g.config, Table(g.positions, g.cooldowns, g.ticks), model, excluded);
  }

  method AnyAlternate(c: Config, t: Table, model: string, excluded: set<string>) returns (available: bool, ticks: nat)
    requires model in c.models
    ensures (available, ticks) == Alternate(c, t, model, excluded, 0)
  {
    var endpoints := c.models[model];
    ticks := t.ticks;
    for i := 0 to |endpoints|
      invariant Alternate(c, t, model, excluded, 0) == Alternate(c, t.(ticks := ticks), model, excluded, i)
    {
      if endpoints[i] !in excluded {
        ticks := ticks + 1;
        if Deadline(t, model, endpoints[i]) <= c.clock(ticks - 1) {
          return true, ticks;
        }
      }
    }
    return false, ticks;
  }

  method DiscardOrKeep(g: Gateway, model: string, excluded: set<string>, attempt: nat, status: nat, script: seq<Attempt>)
    returns (entries: seq<Entry>, next: Option<Opening>)
    requires g.Valid() && model in g.config.models && ValidScript(g.config, script) && attempt < ATTEMPTS
    modifies g
    ensures g.Valid()
    ensures Turn(g.State(), entries, {}, next)
         == AfterRetryable(g.config, old(g.State()), model, excluded, attempt, status, script)
  {
    if attempt == 0 {
      var available := FindAlternate(g, model, excluded);
      if available {
        Interfere(g, script[attempt].duringClose);
        var fault := script[attempt].closeFault;
        return [CloseCalled(attempt)], if fault.Some? then Some(Failed(fault.value)) else None;
      }
    }
    return [], Some(Opened(attempt, status));
  }

  method Receive(g: Gateway, model: string, excluded: set<string>, attempt: nat, endpoint: string, script: seq<Attempt>)
    returns (entries: seq<Entry>, next: Option<Opening>)
    requires g.Valid() && model in g.config.models && ValidScript(g.config, script) && attempt < ATTEMPTS
    modifies g
    ensures g.Valid()
    ensures Turn(g.State(), entries, {}, next)
         == AfterReply(g.config, old(g.State()), model, excluded, attempt, endpoint, script)
  {
    var table := Table(g.positions, g.cooldowns, g.ticks);
    match script[attempt].reply {
      case Raised(fault) =>
        return [], Some(Failed(fault));
      case ConnectFailed =>
        g.CoolDown(model, endpoint, None);
        entries := [Cooling(g.config, table, model, endpoint, attempt, None)];
        next := if attempt == 0 then None else Some(Failed(Refused));
      case Answered(status, retryAfter) =>
        if !Retryable(status) {
          return [Handed(attempt)], Some(Opened(attempt, status));
        }
        g.CoolDown(model, endpoint, retryAfter);
        entries, next := DiscardOrKeep(g, model, excluded, attempt, status, script);
        entries := [Handed(attempt), Cooling(g.config, table, model, endpoint, attempt, retryAfter)] + entries;
    }
  }

  method Try(g: Gateway, model: string, excluded: set<string>, attempt: nat, script: seq<Attempt>)
    returns (entries: seq<Entry>, tried: set<string>, next: Option<Opening>)
    requires g.Valid() && model in g.config.models && ValidScript(g.config, script) && attempt < ATTEMPTS
    modifies g
    ensures g.Valid()
    ensures Turn(g.State(), entries, tried, next) == TakeTurn(g.config, old(g.State()), model, excluded, attempt, script)
  {
    NextValid(g.config, g.State(), Pick(model, excluded));
    var choice := g.SelectReplica(model, excluded);
    if choice.None? {
      return [], {}, Some(Failed(NoReplica));
    }
    var endpoint := g.config.models[model][choice.value];
    var sent := Sent(attempt, endpoint, Deadline(Table(g.positions, g.cooldowns, g.ticks), model, endpoint),
                     g.config.clock(g.ticks - 1));
    Interfere(g, script[attempt].duringSend);
    entries, next := Receive(g, model, excluded + {endpoint}, attempt, endpoint, script);
    entries, tried := [sent] + entries, {endpoint};
  }

  method Open(g: Gateway, model: string, script: seq<Attempt>) returns (entries: seq<Entry>, result: Opening)
    requires g.Valid() && model in g.config.models && ValidScript(g.config, script)
    modifies g
    ensures g.Valid()
    ensures Trace(g.State(), entries, result) == Attempts(g.config, old(g.State()), model, {}, 0, script)
  {
    var excluded: set<string> := {};
    entries := [];
    for attempt := 0 to ATTEMPTS
      invariant g.Valid()
      invariant Attempts(g.config, old(g.State()), model, {}, 0, script)
             == Before(entries, Attempts(g.config, g.State(), model, excluded, attempt, script))
    {
      var more, tried, next := Try(g, model, excluded, attempt, script);
      if next.Some? {
        return entries + more, next.value;
      }
      excluded := excluded + tried;
      BeforeTwice(entries, more, Attempts(g.config, g.State(), model, excluded, attempt + 1, script));
      entries := entries + more;
    }
    return entries, LoopExhausted;
  }

  lemma BeforeTwice(a: seq<Entry>, b: seq<Entry>, rest: Trace)
    ensures Before(a, Before(b, rest)) == Before(a + b, rest)
  {
    assert a + (b + rest.entries) == a + b + rest.entries;
  }

  // ------------------------------------------------------------------
  // What one request guarantees, whatever the others do meanwhile
  // ------------------------------------------------------------------

  // Every send goes to another endpoint of the model, never to an excluded one
  // and never to one that was cooling when it was read; attempts count up.
  ghost predicate SendsAreFresh(c: Config, model: string, excluded: set<string>, attempt: nat, entries: seq<Entry>)
    requires model in c.models
  {
    && (forall i :: 0 <= i < |entries| && entries[i].Sent? ==>
          && attempt <= entries[i].attempt < ATTEMPTS
          && entries[i].endpoint in c.models[model] && entries[i].endpoint !in excluded
          && entries[i].deadline <= entries[i].at)
    && (forall i, j :: 0 <= i < j < |entries| && entries[i].Sent? && entries[j].Sent? ==>
          entries[i].attempt < entries[j].attempt && entries[i].endpoint != entries[j].endpoint)
  }

  // The response of attempt k, if there is one, is either closed once or it is
  // the one the request was opened with, and then it is not closed here.
  ghost predicate Balanced(entries: seq<Entry>, result: Option<Opening>, k: nat) {
    && multiset(entries)[Handed(k)]
       == multiset(entries)[CloseCalled(k)] + (if result.Some? && result.value.Opened? && result.value.attempt == k then 1 else 0)
    && multiset(entries)[Handed(k)] <= 1
  }

  function RetryAfterOf(reply: Reply): Option<real> {
    if reply.Answered? then reply.retryAfter else None
  }

  // The deadline a failure writes counts from now and is what the failure asks for, so it
  // is never sooner than the configured cooldown and a numeric Retry-After.  It shortens
  // the deadline it replaces exactly if some other request failed on the endpoint during
  // the send, from table `selected` on, and the last of those asked for a later moment:
  // while the clock stands still, for more seconds.
  ghost predicate CoolingGrows(c: Config, selected: Table, model: string, script: seq<Attempt>, e: Entry)
    requires ValidConfig(c) && ValidTable(c, selected) && ValidScript(c, script)
  {
    e.Cooled? ==>
      && e.attempt < ATTEMPTS
      && var reply, own := script[e.attempt].reply, e.deadline - e.at;
         var last := LastFailure(c, selected, script[e.attempt].duringSend, model, e.endpoint);
         && Longer(own, c.cooldown, if reply.Answered? then reply.retryAfter else None)
         && (last.Some? ==> c.clock(selected.ticks) <= last.value.at <= e.at)
         && (e.deadline < e.before <==> last.Some? && e.at + own < last.value.at + last.value.seconds)
         && (e.before < e.deadline <==> last.None? || last.value.at + last.value.seconds < e.at + own)
         && (Still(c, selected.ticks) ==> (e.deadline < e.before <==> last.Some? && own < last.value.seconds))
         && (Still(c, selected.ticks) ==> (e.before < e.deadline <==> last.None? || last.value.seconds < own))
  }

  // The table of attempt k, right after its replica is selected
  ghost function Selected(c: Config, t: Table, model: string, excluded: set<string>, attempt: nat, script: seq<Attempt>,
                          k: nat): (selected: Table)
    requires ValidConfig(c) && ValidTable(c, t) && model in c.models && ValidScript(c, script) && attempt <= ATTEMPTS
    ensures ValidTable(c, selected) && t.ticks <= selected.ticks
    decreases ATTEMPTS - attempt
  {
    if attempt == ATTEMPTS then t
    else
      NextValid(c, t, Pick(model, excluded));
      TurnValid(c, t, model, excluded, attempt, script);
      var turn := TakeTurn(c, t, model, excluded, attempt, script);
      if k <= attempt || turn.next.Some? then Select(c, t, model, excluded).0
      else Selected(c, turn.table, model, excluded + turn.tried, attempt + 1, script, k)
  }

  // --- sends

  // One turn sends at most once, first of all, to a fresh endpoint that was not cooling.
  lemma TurnSends(c: Config, t: Table, model: string, excluded: set<string>, attempt: nat, script: seq<Attempt>)
    requires ValidConfig(c) && ValidTable(c, t) && model in c.models && ValidScript(c, script) && attempt < ATTEMPTS
    ensures var turn := TakeTurn(c, t, model, excluded, attempt, script);
            && SendsAreFresh(c, model, excluded, attempt, turn.entries)
            && (forall i :: 0 <= i < |turn.entries| && turn.entries[i].Sent? ==>
                  turn.entries[i].attempt == attempt && turn.entries[i].endpoint in turn.tried)
            && turn.next != Some(LoopExhausted) && (turn.next.None? ==> attempt == 0)
  {
    NextValid(c, t, Pick(model, excluded));
    SelectFinds(c, t, model, excluded);
    var (selected, choice) := Select(c, t, model, excluded);
    if choice.Some? {
      var endpoint := c.models[model][choice.value];
      ReplyDoesNotSend(c, Run(c, selected, script[attempt].duringSend), model, excluded + {endpoint}, attempt, endpoint, script);
    }
  }

  lemma ReplyDoesNotSend(c: Config, t: Table, model: string, excluded: set<string>, attempt: nat, endpoint: string,
                         script: seq<Attempt>)
    requires ValidConfig(c) && ValidTable(c, t) && model in c.models && ValidScript(c, script) && attempt < ATTEMPTS
    ensures var turn := AfterReply(c, t, model, excluded, attempt, endpoint, script);
            && (forall i :: 0 <= i < |turn.entries| ==> !turn.entries[i].Sent?)
            && turn.next != Some(LoopExhausted) && (turn.next.None? ==> attempt == 0)
  {
  }

  // At most two sends, to distinct endpoints of one model, none excluded or
  // cooling when it was selected; and the raise after the loop is dead code.
  lemma {:induction false} BoundedSends(c: Config, t: Table, model: string, excluded: set<string>, attempt: nat,
                                        script: seq<Attempt>)
    requires ValidConfig(c) && ValidTable(c, t) && model in c.models && ValidScript(c, script) && attempt <= ATTEMPTS
    ensures var r := Attempts(c, t, model, excluded, attempt, script);
            && SendsAreFresh(c, model, excluded, attempt, r.entries)
            && (attempt < ATTEMPTS ==> r.result != LoopExhausted)
    decreases ATTEMPTS - attempt
  {
    if attempt == ATTEMPTS {
    } else {
      TurnValid(c, t, model, excluded, attempt, script);
      TurnSends(c, t, model, excluded, attempt, script);
      var turn := TakeTurn(c, t, model, excluded, attempt, script);
      if turn.next.None? {
        BoundedSends(c, turn.table, model, excluded + turn.tried, attempt + 1, script);
      }
    }
  }

  // --- responses

  // What a turn can do after its send, and how it then goes on.
  ghost predicate ReplyShape(entries: seq<Entry>, next: Option<Opening>, attempt: nat) {
    var kept := next.Some? && next.value.Opened?;
    || (!kept && entries == [])
    || (!kept && |entries| == 1 && entries[0].Cooled?)
    || (kept && next.value.attempt == attempt && entries == [Handed(attempt)])
    || (kept && next.value.attempt == attempt && |entries| == 2 && entries[0] == Handed(attempt) && entries[1].Cooled?)
    || (!kept && |entries| == 3 && entries[0] == Handed(attempt) && entries[1].Cooled? && entries[2] == CloseCalled(attempt))
  }

  lemma ReplyHasShape(c: Config, t: Table, model: string, excluded: set<string>, attempt: nat, endpoint: string,
                      script: seq<Attempt>)
    requires ValidConfig(c) && ValidTable(c, t) && model in c.models && ValidScript(c, script) && attempt < ATTEMPTS
    ensures var turn := AfterReply(c, t, model, excluded, attempt, endpoint, script);
            ReplyShape(turn.entries, turn.next, attempt)
  {
  }

  lemma ShapeBalanced(sent: Entry, entries: seq<Entry>, next: Option<Opening>, attempt: nat, k: nat)
    requires sent.Sent? && ReplyShape(entries, next, attempt)
    ensures Balanced([sent] + entries, next, k) && (k != attempt ==> Handed(k) !in [sent] + entries)
  {
    assert entries == match |entries| case 0 => [] case 1 => [entries[0]] case 2 => [entries[0], entries[1]]
                                      case _ => [entries[0], entries[1], entries[2]];
    assert multiset([sent] + entries) == multiset{sent} + multiset(entries);
  }

  // Every response the transport hands over is closed exactly once before the
  // request moves on, except the one it is opened with.
  lemma {:induction false} ResponsesBalanced(c: Config, t: Table, model: string, excluded: set<string>, attempt: nat,
                                             script: seq<Attempt>, k: nat)
    requires ValidConfig(c) && ValidTable(c, t) && model in c.models && ValidScript(c, script) && attempt <= ATTEMPTS
    ensures var r := Attempts(c, t, model, excluded, attempt, script);
            Balanced(r.entries, Some(r.result), k) && (k < attempt ==> Handed(k) !in r.entries)
    decreases ATTEMPTS - attempt
  {
    if attempt == ATTEMPTS {
    } else {
      TurnValid(c, t, model, excluded, attempt, script);
      TurnBalanced(c, t, model, excluded, attempt, script, k);
      var turn := TakeTurn(c, t, model, excluded, attempt, script);
      if turn.next.None? {
        ResponsesBalanced(c, turn.table, model, excluded + turn.tried, attempt + 1, script, k);
        var rest := Attempts(c, turn.table, model, excluded + turn.tried, attempt + 1, script);
        assert multiset(turn.entries + rest.entries) == multiset(turn.entries) + multiset(rest.entries);
      }
    }
  }

  lemma TurnBalanced(c: Config, t: Table, model: string, excluded: set<string>, attempt: nat, script: seq<Attempt>, k: nat)
    requires ValidConfig(c) && ValidTable(c, t) && model in c.models && ValidScript(c, script) && attempt < ATTEMPTS
    ensures var turn := TakeTurn(c, t, model, excluded, attempt, script);
            Balanced(turn.entries, turn.next, k) && (k != attempt ==> Handed(k) !in turn.entries)
  {
    NextValid(c, t, Pick(model, excluded));
    var (selected, choice) := Select(c, t, model, excluded);
    if choice.Some? {
      var endpoint := c.models[model][choice.value];
      var answered := Run(c, selected, script[attempt].duringSend);
      ReplyHasShape(c, answered, model, excluded + {endpoint}, attempt, endpoint, script);
      var turn := AfterReply(c, answered, model, excluded + {endpoint}, attempt, endpoint, script);
      ShapeBalanced(Sent(attempt, endpoint, Deadline(selected, model, endpoint), c.clock(selected.ticks - 1)),
                    turn.entries, turn.next, attempt, k);
    }
  }

  // --- deadlines

  // A failure in a turn, written over a deadline that had passed when the endpoint was selected
  lemma CooledInTurn(c: Config, selected: Table, model: string, endpoint: string, attempt: nat, script: seq<Attempt>)
    requires ValidConfig(c) && ValidTable(c, selected) && ValidScript(c, script) && attempt < ATTEMPTS && selected.ticks > 0
    requires Deadline(selected, model, endpoint) <= c.clock(selected.ticks - 1)
    ensures var answered := Run(c, selected, script[attempt].duringSend);
            CoolingGrows(c, selected, model, script,
                         Cooling(c, answered, model, endpoint, attempt, RetryAfterOf(script[attempt].reply)))
  {
    LastFailureCounts(c, selected, script[attempt].duringSend, model, endpoint);
    assert c.clock(selected.ticks - 1) <= c.clock(Run(c, selected, script[attempt].duringSend).ticks);
  }

  // The only failure a turn writes is its own.
  lemma ReplyCoolsOnce(c: Config, t: Table, model: string, excluded: set<string>, attempt: nat, endpoint: string,
                       script: seq<Attempt>)
    requires ValidConfig(c) && ValidTable(c, t) && model in c.models && ValidScript(c, script) && attempt < ATTEMPTS
    ensures forall e :: e in AfterReply(c, t, model, excluded, attempt, endpoint, script).entries && e.Cooled? ==>
              e == Cooling(c, t, model, endpoint, attempt, RetryAfterOf(script[attempt].reply))
  {
  }

  lemma TurnCools(c: Config, t: Table, model: string, excluded: set<string>, attempt: nat, script: seq<Attempt>)
    requires ValidConfig(c) && ValidTable(c, t) && model in c.models && ValidScript(c, script) && attempt < ATTEMPTS
    ensures Known(c, t, model) && ValidTable(c, Select(c, t, model, excluded).0)
    ensures forall e :: e in TakeTurn(c, t, model, excluded, attempt, script).entries && e.Cooled? ==>
              e.attempt == attempt && CoolingGrows(c, Select(c, t, model, excluded).0, model, script, e)
  {
    NextValid(c, t, Pick(model, excluded));
    SelectFinds(c, t, model, excluded);
    var (selected, choice) := Select(c, t, model, excluded);
    if choice.Some? {
      var endpoint := c.models[model][choice.value];
      CooledInTurn(c, selected, model, endpoint, attempt, script);
      ReplyCoolsOnce(c, Run(c, selected, script[attempt].duringSend), model, excluded + {endpoint}, attempt, endpoint, script);
    }
  }

  // For every failure a request records, whatever the clock does and whatever others do.
  lemma {:induction false} CoolingsGrow(c: Config, t: Table, model: string, excluded: set<string>, attempt: nat,
                                        script: seq<Attempt>, e: Entry)
    requires ValidConfig(c) && ValidTable(c, t) && model in c.models && ValidScript(c, script) && attempt <= ATTEMPTS
    requires e in Attempts(c, t, model, excluded, attempt, script).entries && e.Cooled?
    ensures attempt <= e.attempt
    ensures CoolingGrows(c, Selected(c, t, model, excluded, attempt, script, e.attempt), model, script, e)
    decreases ATTEMPTS - attempt
  {
    if attempt == ATTEMPTS {
    } else {
      TurnValid(c, t, model, excluded, attempt, script);
      TurnCools(c, t, model, excluded, attempt, script);
      var turn := TakeTurn(c, t, model, excluded, attempt, script);
      if e !in turn.entries {
        CoolingsGrow(c, turn.table, model, excluded + turn.tried, attempt + 1, script, e);
      }
    }
  }

  // ------------------------------------------------------------------
  // A response is only discarded for a replica that can be had
  // ------------------------------------------------------------------

  lemma {:induction false} AlternateExists(c: Config, t: Table, model: string, excluded: set<string>, i: nat) returns (j: nat)
    requires Monotone(c.clock) && model in c.models && i <= |c.models[model]|
    requires Alternate(c, t, model, excluded, i).0
    ensures j < |c.models[model]| && c.models[model][j] !in excluded
    ensures var ticks := Alternate(c, t, model, excluded, i).1;
            t.ticks < ticks && Deadline(t, model, c.models[model][j]) <= c.clock(ticks)
    decreases |c.models[model]| - i
  {
    if c.models[model][i] in excluded {
      j := AlternateExists(c, t, model, excluded, i + 1);
    } else if Deadline(t, model, c.models[model][i]) <= c.clock(t.ticks) {
      j := i;
    } else {
      j := AlternateExists(c, t.(ticks := t.ticks + 1), model, excluded, i + 1);
    }
  }

  // Replica j can be had in table t, and nobody records a failure of it among the steps.
  ghost predicate Untouched(c: Config, t: Table, model: string, excluded: set<string>, steps: seq<Step>, j: nat) {
    && model in c.models && j < |c.models[model]|
    && Eligible(c, t, model, excluded, j)
    && LastAsked(c, steps, model, c.models[model][j]).None?
  }

  // The table when the availability check of the first attempt is over
  function Checked(c: Config, t: Table, model: string, excluded: set<string>): Table
    requires model in c.models
  {
    t.(ticks := Alternate(c, t, model, excluded, 0).1)
  }

  // When replica `endpoint` can be had again after the steps: what its last failure among
  // them asked for, or its old deadline
  ghost function Due(c: Config, t: Table, model: string, steps: seq<Step>, endpoint: string): real
    requires ValidConfig(c) && ValidTable(c, t) && AllEnabled(c, steps)
  {
    var last := LastFailure(c, t, steps, model, endpoint);
    if last.Some? then last.value.at + last.value.seconds else Deadline(t, model, endpoint)
  }

  // After the steps, the untried replica at this offset is free again when its turn comes.
  ghost predicate FreeInTurn(c: Config, t: Table, model: string, excluded: set<string>, steps: seq<Step>, offset: nat)
    requires ValidConfig(c) && ValidTable(c, t) && AllEnabled(c, steps)
  {
    var later := Run(c, t, steps);
    && Known(c, later, model) && offset < |c.models[model]|
    && Candidate(c, later, model, offset) !in excluded
    && Due(c, t, model, steps, Candidate(c, later, model, offset))
       <= c.clock(later.ticks + Readings(c.models[model], excluded, Position(later, model), 0, offset))
  }

  // After a run, a selection succeeds exactly if some untried replica is free again when
  // its turn comes.  It is enough that one that could be had before was left untouched;
  // while the clock stands still, that is necessary too.
  lemma SelectAfter(c: Config, t: Table, model: string, excluded: set<string>, steps: seq<Step>)
    requires ValidConfig(c) && ValidTable(c, t) && model in c.models && AllEnabled(c, steps)
    ensures Known(c, Run(c, t, steps), model)
    ensures Select(c, Run(c, t, steps), model, excluded).1.Some?
       <==> exists offset: nat :: FreeInTurn(c, t, model, excluded, steps, offset)
    ensures (exists j :: Untouched(c, t, model, excluded, steps, j)) ==> Select(c, Run(c, t, steps), model, excluded).1.Some?
    ensures Still(c, t.ticks) && Select(c, Run(c, t, steps), model, excluded).1.Some? ==>
              exists j :: Untouched(c, t, model, excluded, steps, j)
  {
    var later := Run(c, t, steps);
    NextValid(c, later, Pick(model, excluded));
    FreeExactly(c, t, model, excluded, steps);
    if j: nat :| Untouched(c, t, model, excluded, steps, j) {
      UntouchedSelects(c, t, model, excluded, steps, j);
    }
    if Still(c, t.ticks) && Select(c, later, model, excluded).1.Some? {
      SelectedUntouched(c, t, model, excluded, steps);
    }
  }

  lemma FreeExactly(c: Config, t: Table, model: string, excluded: set<string>, steps: seq<Step>)
    requires ValidConfig(c) && ValidTable(c, t) && AllEnabled(c, steps) && Known(c, Run(c, t, steps), model)
    ensures Select(c, Run(c, t, steps), model, excluded).1.Some?
       <==> exists offset: nat :: FreeInTurn(c, t, model, excluded, steps, offset)
  {
    var later := Run(c, t, steps);
    ScanExactly(c, later, model, excluded, 0);
    forall offset: nat
      ensures PastInTurn(c, later, model, excluded, 0, offset) <==> FreeInTurn(c, t, model, excluded, steps, offset)
    {
      if offset < |c.models[model]| {
        LastFailureCounts(c, t, steps, model, Candidate(c, later, model, offset));
      }
    }
  }

  lemma UntouchedSelects(c: Config, t: Table, model: string, excluded: set<string>, steps: seq<Step>, j: nat)
    requires ValidConfig(c) && ValidTable(c, t) && AllEnabled(c, steps) && Known(c, Run(c, t, steps), model)
    requires Untouched(c, t, model, excluded, steps, j)
    ensures Select(c, Run(c, t, steps), model, excluded).1.Some?
  {
    var later := Run(c, t, steps);
    LastFailureCounts(c, t, steps, model, c.models[model][j]);
    assert c.clock(t.ticks) <= c.clock(later.ticks);
    assert Eligible(c, later, model, excluded, j);
    SelectFinds(c, later, model, excluded);
  }

  lemma SelectedUntouched(c: Config, t: Table, model: string, excluded: set<string>, steps: seq<Step>)
    requires ValidConfig(c) && ValidTable(c, t) && AllEnabled(c, steps) && Known(c, Run(c, t, steps), model)
    requires Still(c, t.ticks) && Select(c, Run(c, t, steps), model, excluded).1.Some?
    ensures Untouched(c, t, model, excluded, steps, Select(c, Run(c, t, steps), model, excluded).1.value)
  {
    var later := Run(c, t, steps);
    SelectFinds(c, later, model, excluded);
    var (after, choice) := Select(c, later, model, excluded);
    LastFailureCounts(c, t, steps, model, c.models[model][choice.value]);
    assert c.clock(after.ticks - 1) == c.clock(t.ticks);
  }

  // One untouched alternate is enough for the selection after the close to succeed.
  lemma DiscardLeadsOn(c: Config, t: Table, model: string, excluded: set<string>, status: nat, script: seq<Attempt>)
    requires ValidConfig(c) && ValidTable(c, t) && model in c.models && ValidScript(c, script)
    requires AfterRetryable(c, t, model, excluded, 0, status, script).next.None?
    requires exists j :: Untouched(c, Checked(c, t, model, excluded), model, excluded, script[0].duringClose, j)
    ensures var closed := AfterRetryable(c, t, model, excluded, 0, status, script).table;
            Known(c, closed, model) && Select(c, closed, model, excluded).1.Some?
  {
    SelectAfter(c, Checked(c, t, model, excluded), model, excluded, script[0].duringClose);
  }

  // It succeeds exactly if some untried replica is free again when its turn comes; while
  // the clock stands still, exactly if one that could be had is left untouched.
  lemma DiscardExactly(c: Config, t: Table, model: string, excluded: set<string>, status: nat, script: seq<Attempt>)
    requires ValidConfig(c) && ValidTable(c, t) && model in c.models && ValidScript(c, script)
    requires AfterRetryable(c, t, model, excluded, 0, status, script).next.None?
    ensures var closed := AfterRetryable(c, t, model, excluded, 0, status, script).table;
            var steps := script[0].duringClose;
            && Known(c, closed, model)
            && (Select(c, closed, model, excluded).1.Some?
                <==> exists offset: nat :: FreeInTurn(c, Checked(c, t, model, excluded), model, excluded, steps, offset))
            && (Still(c, t.ticks) ==>
                  (Select(c, closed, model, excluded).1.Some? <==> exists j :: Untouched(c, t, model, excluded, steps, j)))
  {
    var checked := Checked(c, t, model, excluded);
    var _ := AlternateExists(c, t, model, excluded, 0);
    SelectAfter(c, checked, model, excluded, script[0].duringClose);
    if Still(c, t.ticks) {
      forall j: nat
        ensures Untouched(c, checked, model, excluded, script[0].duringClose, j)
           <==> Untouched(c, t, model, excluded, script[0].duringClose, j)
      {
      }
    }
  }

  // --- for the whole request

  datatype Discard = Discard(cooled: Table, tried: set<string>)

  // Where a request stands when its first response is retryable and has been recorded
  ghost function FirstFailure(c: Config, t: Table, model: string, script: seq<Attempt>): Discard
    requires ValidConfig(c) && ValidTable(c, t) && model in c.models && ValidScript(c, script)
  {
    NextValid(c, t, Pick(model, {}));
    var (selected, choice) := Select(c, t, model, {});
    if choice.None? then Discard(selected, {})
    else
      var endpoint := c.models[model][choice.value];
      var answered := Run(c, selected, script[0].duringSend);
      Discard(Cool(c, answered, model, endpoint, RetryAfterOf(script[0].reply)), {endpoint})
  }

  ghost predicate SendsAgain(r: Trace) {
    exists i :: 0 <= i < |r.entries| && r.entries[i].Sent? && r.entries[i].attempt == 1
  }

  // A request that closed its first response has taken exactly this first turn.
  lemma DiscardedTurn(c: Config, t: Table, model: string, script: seq<Attempt>)
    requires ValidConfig(c) && ValidTable(c, t) && model in c.models && ValidScript(c, script)
    requires CloseCalled(0) in Attempts(c, t, model, {}, 0, script).entries && script[0].closeFault.None?
    ensures var Discard(cooled, tried) := FirstFailure(c, t, model, script);
            var turn := TakeTurn(c, t, model, {}, 0, script);
            && script[0].reply.Answered? && ValidTable(c, cooled) && t.ticks <= cooled.ticks
            && var after := AfterRetryable(c, cooled, model, tried, 0, script[0].reply.status, script);
               turn.next.None? && after.next.None? && turn.table == after.table && turn.tried == tried
  {
    TurnValid(c, t, model, {}, 0, script);
    NextValid(c, t, Pick(model, {}));
    var turn := TakeTurn(c, t, model, {}, 0, script);
    if turn.next.None? {
      ResponsesBalanced(c, turn.table, model, {} + turn.tried, 1, script, 0);
      assert CloseCalled(0) !in Attempts(c, turn.table, model, {} + turn.tried, 1, script).entries;
    }
    assert CloseCalled(0) in turn.entries;
    var (selected, choice) := Select(c, t, model, {});
    var endpoint := c.models[model][choice.value];
    assert {} + {endpoint} == {endpoint} == turn.tried;
    ClosedReply(c, Run(c, selected, script[0].duringSend), model, {endpoint}, endpoint, script);
  }

  lemma ClosedReply(c: Config, t: Table, model: string, excluded: set<string>, endpoint: string, script: seq<Attempt>)
    requires ValidConfig(c) && ValidTable(c, t) && model in c.models && ValidScript(c, script)
    requires CloseCalled(0) in AfterReply(c, t, model, excluded, 0, endpoint, script).entries && script[0].closeFault.None?
    ensures script[0].reply.Answered?
    ensures var cooled := Cool(c, t, model, endpoint, RetryAfterOf(script[0].reply));
            var turn := AfterReply(c, t, model, excluded, 0, endpoint, script);
            var after := AfterRetryable(c, cooled, model, excluded, 0, script[0].reply.status, script);
            ValidTable(c, cooled) && turn.next.None? && after.next.None? && turn.table == after.table
  {
  }

  // It sends again exactly if the selection after the close succeeds, and ends without a
  // replica if not.
  lemma SendsAgainExactly(c: Config, t: Table, model: string, script: seq<Attempt>)
    requires ValidConfig(c) && ValidTable(c, t) && model in c.models && ValidScript(c, script)
    requires TakeTurn(c, t, model, {}, 0, script).next.None?
    ensures var turn, r := TakeTurn(c, t, model, {}, 0, script), Attempts(c, t, model, {}, 0, script);
            && Known(c, turn.table, model)
            && (SendsAgain(r) <==> Select(c, turn.table, model, turn.tried).1.Some?)
            && (!SendsAgain(r) ==> r.result == Failed(NoReplica))
  {
    TurnValid(c, t, model, {}, 0, script);
    TurnSends(c, t, model, {}, 0, script);
    var turn := TakeTurn(c, t, model, {}, 0, script);
    TurnValid(c, turn.table, model, {} + turn.tried, 1, script);
    TurnSends(c, turn.table, model, {} + turn.tried, 1, script);
    NextValid(c, turn.table, Pick(model, turn.tried));
    var second := TakeTurn(c, turn.table, model, {} + turn.tried, 1, script);
    assert {} + turn.tried == turn.tried;
    var r := Attempts(c, t, model, {}, 0, script);
    assert r.entries == turn.entries + second.entries && r.result == second.next.value;
    if Select(c, turn.table, model, turn.tried).1.Some? {
      assert r.entries[|turn.entries|] == second.entries[0];
    }
  }

  // A request that discarded a response goes on to a second send exactly if some untried
  // replica is free again when its turn comes; and ends without a replica if not.  It is
  // enough that one alternate was left untouched while the response was being closed;
  // while the clock stands still, that is necessary too.
  lemma DiscardIsSafe(c: Config, t: Table, model: string, script: seq<Attempt>)
    requires ValidConfig(c) && ValidTable(c, t) && model in c.models && ValidScript(c, script)
    requires CloseCalled(0) in Attempts(c, t, model, {}, 0, script).entries && script[0].closeFault.None?
    ensures var Discard(cooled, tried) := FirstFailure(c, t, model, script);
            var r, steps := Attempts(c, t, model, {}, 0, script), script[0].duringClose;
            var checked := Checked(c, cooled, model, tried);
            && ValidTable(c, checked)
            && (SendsAgain(r) <==> exists offset: nat :: FreeInTurn(c, checked, model, tried, steps, offset))
            && ((exists j :: Untouched(c, checked, model, tried, steps, j)) ==> SendsAgain(r))
            && (Still(c, t.ticks) ==> (SendsAgain(r) <==> exists j :: Untouched(c, cooled, model, tried, steps, j)))
            && (!SendsAgain(r) ==> r.result == Failed(NoReplica))
  {
    DiscardedTurn(c, t, model, script);
    SendsAgainExactly(c, t, model, script);
    var Discard(cooled, tried) := FirstFailure(c, t, model, script);
    var status := script[0].reply.status;
    DiscardExactly(c, cooled, model, tried, status, script);
    if exists j :: Untouched(c, Checked(c, cooled, model, tried), model, tried, script[0].duringClose, j) {
      DiscardLeadsOn(c, cooled, model, tried, status, script);
    }
  }

  // ------------------------------------------------------------------
  // What a request comes to, reply by reply
  // ------------------------------------------------------------------

  // Untried replica i is past its deadline when the availability check reads it.
  ghost predicate AlternateAt(c: Config, t: Table, model: string, excluded: set<string>, i: nat)
    requires model in c.models
  {
    var endpoints := c.models[model];
    && i < |endpoints| && endpoints[i] !in excluded
    && Deadline(t, model, endpoints[i]) <= c.clock(t.ticks + Readings(endpoints, excluded, 0, 0, i))
  }

  ghost predicate Available(c: Config, t: Table, model: string, excluded: set<string>)
    requires model in c.models
  {
    exists i: nat :: AlternateAt(c, t, model, excluded, i)
  }

  lemma AlternateExactly(c: Config, t: Table, model: string, excluded: set<string>)
    requires ValidConfig(c) && model in c.models
    ensures Alternate(c, t, model, excluded, 0).0 <==> Available(c, t, model, excluded)
  {
    var front := t.(positions := map[model := 0]);
    AlternateScans(c, t, model, excluded, 0);
    ScanExactly(c, front, model, excluded, 0);
    forall i: nat
      ensures PastInTurn(c, front, model, excluded, 0, i) <==> AlternateAt(c, t, model, excluded, i)
    {
    }
  }

  // The check looks for a replica as a selection at the front of the ring would.
  lemma {:induction false} AlternateScans(c: Config, t: Table, model: string, excluded: set<string>, i: nat)
    requires model in c.models && c.models[model] != [] && i <= |c.models[model]|
    ensures var front := t.(positions := map[model := 0]);
            Alternate(c, t, model, excluded, i).0 <==> Scan(c, front, model, excluded, i).0.Some?
    decreases |c.models[model]| - i
  {
    if i == |c.models[model]| {
    } else {
      AlternateScans(c, t, model, excluded, i + 1);
      AlternateScans(c, t.(ticks := t.ticks + 1), model, excluded, i + 1);
    }
  }

  // The statuses that count as a failure of the replica
  predicate Overloaded(reply: Reply) {
    reply.Answered? && (reply.status == 429 || reply.status == 502 || reply.status == 503 || reply.status == 504)
  }

  // A turn that gets to send: where the request stands when its reply is in
  ghost function Replied(c: Config, t: Table, model: string, excluded: set<string>, attempt: nat, script: seq<Attempt>): Table
    requires ValidConfig(c) && ValidTable(c, t) && Known(c, t, model) && ValidScript(c, script) && attempt < ATTEMPTS
  {
    NextValid(c, t, Pick(model, excluded));
    Run(c, Select(c, t, model, excluded).0, script[attempt].duringSend)
  }

  // What the failure of a replica leaves behind: a deadline that counts from now, the
  // configured cooldown or a longer Retry-After ahead, and the record of it
  ghost predicate Records(c: Config, t: Table, later: Table, model: string, endpoint: string, attempt: nat, reply: Reply,
                          entry: Entry)
  {
    var now := c.clock(t.ticks);
    var asked := if reply.Answered? && reply.retryAfter.Some? then reply.retryAfter.value else c.cooldown;
    var deadline := now + if asked > c.cooldown then asked else c.cooldown;
    && entry == Cooled(attempt, endpoint, Deadline(t, model, endpoint), deadline, now)
    && later.positions == t.positions
    && Deadline(later, model, endpoint) == deadline
    && forall m, e :: (m, e) != (model, endpoint) ==> Deadline(later, m, e) == Deadline(t, m, e)
  }

  lemma CoolRecords(c: Config, t: Table, model: string, endpoint: string, attempt: nat, reply: Reply)
    ensures Records(c, t, Cool(c, t, model, endpoint, RetryAfterOf(reply)), model, endpoint, attempt, reply,
                    Cooling(c, t, model, endpoint, attempt, RetryAfterOf(reply)))
  {
  }

  // Every turn: without a replica it ends the request; otherwise it sends once, and its
  // reply decides what it records and whether the request ends here.
  lemma TurnExactly(c: Config, t: Table, model: string, excluded: set<string>, attempt: nat, script: seq<Attempt>)
    returns (recorded: Table)
    requires ValidConfig(c) && ValidTable(c, t) && model in c.models && ValidScript(c, script) && attempt < ATTEMPTS
    ensures Known(c, t, model)
    ensures var (selected, choice) := Select(c, t, model, excluded);
            var turn := TakeTurn(c, t, model, excluded, attempt, script);
            if choice.None? then turn.entries == [] && turn.next == Some(Failed(NoReplica)) && turn.table == selected
            else
              var reply, endpoint := script[attempt].reply, c.models[model][choice.value];
              var answered := Replied(c, t, model, excluded, attempt, script);
              && turn.tried == {endpoint}
              && turn.entries != [] && turn.entries[0].Sent?
              && turn.entries[0].attempt == attempt && turn.entries[0].endpoint == endpoint
              && AfterSend(c, answered, recorded, model, excluded + {endpoint}, attempt, endpoint, script, turn)
  {
    NextValid(c, t, Pick(model, excluded));
    var (selected, choice) := Select(c, t, model, excluded);
    recorded := t;
    if choice.Some? {
      var reply, endpoint := script[attempt].reply, c.models[model][choice.value];
      var answered := Run(c, selected, script[attempt].duringSend);
      recorded := Cool(c, answered, model, endpoint, RetryAfterOf(reply));
      CoolRecords(c, answered, model, endpoint, attempt, reply);
      AlternateExactly(c, recorded, model, excluded + {endpoint});
      var after := AfterReply(c, answered, model, excluded + {endpoint}, attempt, endpoint, script);
      assert TakeTurn(c, t, model, excluded, attempt, script).entries[1..] == after.entries;
    }
  }

  // From the reply on: a fault ends the request with that fault; a refused connection is
  // recorded and ends only the last attempt; a status that is no overload opens the
  // request; and an overload is recorded and opens it too, unless the first attempt finds
  // an alternate, closes the response and goes on.
  ghost predicate AfterSend(c: Config, answered: Table, recorded: Table, model: string, excluded: set<string>, attempt: nat,
                            endpoint: string, script: seq<Attempt>, turn: Turn)
    requires model in c.models && |script| == ATTEMPTS && attempt < ATTEMPTS && turn.entries != []
  {
    var reply, more := script[attempt].reply, turn.entries[1..];
    if reply.Raised? then more == [] && turn.next == Some(Failed(reply.fault)) && turn.table == answered
    else if reply.ConnectFailed? then
      && |more| == 1 && Records(c, answered, recorded, model, endpoint, attempt, reply, more[0])
      && turn.table == recorded
      && turn.next == if attempt == 0 then None else Some(Failed(Refused))
    else if !Overloaded(reply) then
      more == [Handed(attempt)] && turn.next == Some(Opened(attempt, reply.status)) && turn.table == answered
    else
      && |more| >= 2 && more[0] == Handed(attempt)
      && Records(c, answered, recorded, model, endpoint, attempt, reply, more[1])
      && if attempt == 0 && Available(c, recorded, model, excluded)
         then
           && more[2..] == [CloseCalled(0)]
           && turn.next == if script[0].closeFault.Some? then Some(Failed(script[0].closeFault.value)) else None
         else more[2..] == [] && turn.next == Some(Opened(attempt, reply.status)) && turn.table.cooldowns == recorded.cooldowns
  }

  // A request goes on to another replica exactly after a refused connection, or after an
  // overload with an alternate and a close that does not fail.
  ghost predicate GoesOn(c: Config, t: Table, model: string, script: seq<Attempt>)
    requires ValidConfig(c) && ValidTable(c, t) && Known(c, t, model) && ValidScript(c, script)
  {
    var (selected, choice) := Select(c, t, model, {});
    && choice.Some?
    && (script[0].reply.ConnectFailed?
        || (Overloaded(script[0].reply) && script[0].closeFault.None?
            && var Discard(cooled, tried) := FirstFailure(c, t, model, script);
               Available(c, cooled, model, tried)))
  }

  lemma FirstTurnGoesOn(c: Config, t: Table, model: string, script: seq<Attempt>)
    requires ValidConfig(c) && ValidTable(c, t) && model in c.models && ValidScript(c, script)
    ensures Known(c, t, model)
    ensures TakeTurn(c, t, model, {}, 0, script).next.None? <==> GoesOn(c, t, model, script)
  {
    NextValid(c, t, Pick(model, {}));
    var choice := Select(c, t, model, {}).1;
    if choice.Some? {
      var Discard(cooled, tried) := FirstFailure(c, t, model, script);
      assert {} + {c.models[model][choice.value]} == tried;
      AlternateExactly(c, cooled, model, tried);
    }
  }

  // The result of an attempt that does not go on
  function Last(attempt: nat, reply: Reply): Opening {
    match reply
    case Raised(fault) => Failed(fault)
    case ConnectFailed => Failed(Refused)
    case Answered(status, _) => Opened(attempt, status)
  }

  // The whole request, from its script: the first attempt decides unless it goes on, then
  // the second does, with its own reply, if there is a replica for it.
  lemma ResultExactly(c: Config, t: Table, model: string, script: seq<Attempt>)
    requires ValidConfig(c) && ValidTable(c, t) && model in c.models && ValidScript(c, script)
    ensures Known(c, t, model)
    ensures var r, first := Attempts(c, t, model, {}, 0, script), TakeTurn(c, t, model, {}, 0, script);
            && Known(c, first.table, model)
            && (Select(c, t, model, {}).1.None? ==> r.result == Failed(NoReplica))
            && (Select(c, t, model, {}).1.Some? && !GoesOn(c, t, model, script) ==>
                  var Discard(cooled, tried) := FirstFailure(c, t, model, script);
                  && (Overloaded(script[0].reply) && Available(c, cooled, model, tried) ==> script[0].closeFault.Some?)
                  && r.result == if Overloaded(script[0].reply) && Available(c, cooled, model, tried)
                              then Failed(script[0].closeFault.value) else Last(0, script[0].reply))
            && (GoesOn(c, t, model, script) ==>
                  r.result == if Select(c, first.table, model, first.tried).1.None? then Failed(NoReplica)
                              else Last(1, script[1].reply))
  {
    FirstTurnGoesOn(c, t, model, script);
    TurnValid(c, t, model, {}, 0, script);
    var first := TakeTurn(c, t, model, {}, 0, script);
    NextValid(c, first.table, Pick(model, first.tried));
    if first.next.None? {
      assert {} + first.tried == first.tried;
      SecondTurn(c, first.table, model, first.tried, script);
    } else {
      FirstTurnEnds(c, t, model, script);
    }
  }

  lemma FirstTurnEnds(c: Config, t: Table, model: string, script: seq<Attempt>)
    requires ValidConfig(c) && ValidTable(c, t) && Known(c, t, model) && ValidScript(c, script)
    requires TakeTurn(c, t, model, {}, 0, script).next.Some?
    ensures var turn := TakeTurn(c, t, model, {}, 0, script);
            if Select(c, t, model, {}).1.None? then turn.next == Some(Failed(NoReplica))
            else
              var Discard(cooled, tried) := FirstFailure(c, t, model, script);
              if Overloaded(script[0].reply) && Available(c, cooled, model, tried)
              then script[0].closeFault.Some? && turn.next == Some(Failed(script[0].closeFault.value))
              else turn.next == Some(Last(0, script[0].reply))
  {
    var choice := Select(c, t, model, {}).1;
    if choice.Some? {
      var Discard(cooled, tried) := FirstFailure(c, t, model, script);
      assert {} + {c.models[model][choice.value]} == tried;
      AlternateExactly(c, cooled, model, tried);
    }
  }

  lemma SecondTurn(c: Config, t: Table, model: string, tried: set<string>, script: seq<Attempt>)
    requires ValidConfig(c) && ValidTable(c, t) && Known(c, t, model) && ValidScript(c, script)
    ensures Attempts(c, t, model, tried, 1, script).result
         == if Select(c, t, model, tried).1.None? then Failed(NoReplica) else Last(1, script[1].reply)
  {
    TurnValid(c, t, model, tried, 1, script);
    var _ := TurnExactly(c, t, model, tried, 1, script);
  }

  // ------------------------------------------------------------------
  // What interleaving can break
  // ------------------------------------------------------------------

  function TwoReplicas(): Config {
    Config(map["m" := ["a", "b"]], 1.0, k => 0.0)
  }

  // The response of "a" is discarded for "b", but "b" fails for another request
  // while the response is being closed.
  lemma DiscardCanBeLost()
    ensures var c := TwoReplicas();
            var script := [Attempt([], Answered(503, None), [Fail("m", "b", None)], None), Attempt([], ConnectFailed, [], None)];
            && ValidConfig(c) && ValidTable(c, EMPTY_TABLE) && ValidScript(c, script)
            && var r := Attempts(c, EMPTY_TABLE, "m", {}, 0, script);
               CloseCalled(0) in r.entries && r.result == Failed(NoReplica)
  {
    var c := TwoReplicas();
    assert c.models["m"] == ["a", "b"];
    var script := [Attempt([], Answered(503, None), [Fail("m", "b", None)], None), Attempt([], ConnectFailed, [], None)];
    assert Select(c, EMPTY_TABLE, "m", {}) == (Table(map["m" := 1], map[], 1), Some(0));
    var t := Cool(c, Table(map["m" := 1], map[], 1), "m", "a", None);
    assert Alternate(c, t, "m", {"a"}, 0) == (true, t.ticks + 1);
    var checked := t.(ticks := t.ticks + 1);
    var closed := Cool(c, checked, "m", "b", None);
    assert Run(c, checked, script[0].duringClose) == closed;
    assert Deadline(closed, "m", "b") == 1.0;
    assert Scan(c, closed, "m", {"a"}, 0) == (None, closed.ticks + 1);
    var turn := TakeTurn(c, EMPTY_TABLE, "m", {}, 0, script);
    assert turn.table == closed && turn.next == None && {} + turn.tried == {"a"};
    assert turn.entries[3] == CloseCalled(0);
    assert TakeTurn(c, closed, "m", {"a"}, 1, script).next == Some(Failed(NoReplica));
  }

  // Another request's long Retry-After is replaced by this one's short cooldown.
  lemma OverlapCanShorten()
    ensures var c := TwoReplicas();
            var rival := [Attempt([Fail("m", "a", Some(100.0))], ConnectFailed, [], None), Attempt([], Raised(Cancelled), [], None)];
            && ValidConfig(c) && ValidTable(c, EMPTY_TABLE) && ValidScript(c, rival)
            && exists e :: e in Attempts(c, EMPTY_TABLE, "m", {}, 0, rival).entries
                           && e.Cooled? && e.deadline < e.before
  {
  }

  // ------------------------------------------------------------------
  // Requests that do not overlap
  // ------------------------------------------------------------------

  datatype Served = Served(model: string, script: seq<Attempt>)

  // Between its own steps a request that is alone sees only the clock move.
  ghost predicate Alone(c: Config, r: Served) {
    && r.model in c.models && ValidScript(c, r.script)
    && forall k, i :: 0 <= k < ATTEMPTS ==>
         && (0 <= i < |r.script[k].duringSend| ==> r.script[k].duringSend[i].Read?)
         && (0 <= i < |r.script[k].duringClose| ==> r.script[k].duringClose[i].Read?)
  }

  function Written(entries: seq<Entry>, endpoint: string): seq<real> {
    if entries == [] then []
    else (if entries[0].Cooled? && entries[0].endpoint == endpoint then [entries[0].deadline] else [])
         + Written(entries[1..], endpoint)
  }

  // The deadlines of one endpoint that a run of requests writes, one after another.
  ghost function Deadlines(c: Config, t: Table, requests: seq<Served>, model: string, endpoint: string): seq<real>
    requires ValidConfig(c) && ValidTable(c, t)
    requires forall i :: 0 <= i < |requests| ==> Alone(c, requests[i])
    decreases |requests|
  {
    if requests == [] then []
    else
      assert Alone(c, requests[0]);
      var r := Attempts(c, t, requests[0].model, {}, 0, requests[0].script);
      AttemptsValid(c, t, requests[0].model, {}, 0, requests[0].script);
      (if requests[0].model == model then Written(r.entries, endpoint) else [])
      + Deadlines(c, r.table, requests[1..], model, endpoint)
  }

  lemma {:induction false} AttemptsValid(c: Config, t: Table, model: string, excluded: set<string>, attempt: nat, script: seq<Attempt>)
    requires ValidConfig(c) && ValidTable(c, t) && model in c.models && ValidScript(c, script) && attempt <= ATTEMPTS
    ensures ValidTable(c, Attempts(c, t, model, excluded, attempt, script).table)
    decreases ATTEMPTS - attempt
  {
    if attempt == ATTEMPTS {
    } else {
      TurnValid(c, t, model, excluded, attempt, script);
      var turn := TakeTurn(c, t, model, excluded, attempt, script);
      if turn.next.None? { AttemptsValid(c, turn.table, model, excluded + turn.tried, attempt + 1, script); }
    }
  }

  // A strictly rising sequence that starts above `base` and ends at `last`.
  ghost predicate Rising(base: real, values: seq<real>, last: real)
    decreases |values|
  {
    if values == [] then base == last else base < values[0] && Rising(values[0], values[1..], last)
  }

  lemma {:induction false} RisingJoin(base: real, a: seq<real>, middle: real, b: seq<real>, last: real)
    requires Rising(base, a, middle) && Rising(middle, b, last)
    ensures Rising(base, a + b, last)
    decreases |a|
  {
    if a == [] {
      assert a + b == b;
    } else {
      assert (a + b)[1..] == a[1..] + b;
      RisingJoin(a[0], a[1..], middle, b, last);
    }
  }

  lemma {:induction false} WrittenJoin(a: seq<Entry>, b: seq<Entry>, endpoint: string)
    ensures Written(a + b, endpoint) == Written(a, endpoint) + Written(b, endpoint)
  {
    if a == [] {
      assert a + b == b;
    } else {
      assert (a + b)[1..] == a[1..] + b;
      WrittenJoin(a[1..], b, endpoint);
    }
  }

  lemma WrittenSent(sent: Entry, rest: seq<Entry>, endpoint: string)
    requires sent.Sent?
    ensures Written([sent] + rest, endpoint) == Written(rest, endpoint)
  {
    assert ([sent] + rest)[1..] == rest;
    assert [] + Written(rest, endpoint) == Written(rest, endpoint);
  }

  lemma WrittenReply(handed: Entry, cooled: Entry, rest: seq<Entry>, endpoint: string)
    requires handed.Handed? && cooled.Cooled? && (rest == [] || (|rest| == 1 && rest[0].CloseCalled?))
    ensures Written([handed, cooled] + rest, endpoint) == if cooled.endpoint == endpoint then [cooled.deadline] else []
  {
    var all := [handed, cooled] + rest;
    assert all[1..] == [cooled] + rest && ([cooled] + rest)[1..] == rest;
    assert rest != [] ==> |rest[1..]| == 0;
    assert Written(rest, endpoint) == [];
    assert Written(all, endpoint) == Written([cooled] + rest, endpoint);
  }

  lemma {:induction false} ReadsKeepCooldowns(c: Config, t: Table, steps: seq<Step>)
    requires ValidConfig(c) && ValidTable(c, t) && AllEnabled(c, steps)
    requires forall i :: 0 <= i < |steps| ==> steps[i].Read?
    ensures Run(c, t, steps).cooldowns == t.cooldowns
    decreases |steps|
  {
    if steps == [] {
    } else {
      ReadsKeepCooldowns(c, Next(c, t, steps[0]), steps[1..]);
    }
  }

  // One turn of a request that is alone raises the deadline it writes, and no other.
  lemma TurnRises(c: Config, t: Table, r: Served, excluded: set<string>, attempt: nat, model: string, endpoint: string)
    requires ValidConfig(c) && ValidTable(c, t) && Alone(c, r) && attempt < ATTEMPTS
    ensures var turn := TakeTurn(c, t, r.model, excluded, attempt, r.script);
            Rising(Deadline(t, model, endpoint), if r.model == model then Written(turn.entries, endpoint) else [],
                   Deadline(turn.table, model, endpoint))
  {
    NextValid(c, t, Pick(r.model, excluded));
    SelectFinds(c, t, r.model, excluded);
    var (selected, choice) := Select(c, t, r.model, excluded);
    if choice.Some? {
      var tried := c.models[r.model][choice.value];
      var during := r.script[attempt].duringSend;
      ReadsKeepCooldowns(c, selected, during);
      LastFailureCounts(c, selected, during, r.model, tried);
      assert c.clock(selected.ticks - 1) <= c.clock(Run(c, selected, during).ticks);
      AskedByRival(c, during, r.model, tried);
      var answered := Run(c, selected, during);
      ReplyRises(c, answered, r, excluded + {tried}, attempt, tried, model, endpoint);
      var rest := AfterReply(c, answered, r.model, excluded + {tried}, attempt, tried, r.script).entries;
      var sent := Sent(attempt, tried, Deadline(selected, r.model, tried), c.clock(selected.ticks - 1));
      WrittenSent(sent, rest, endpoint);
    }
  }

  lemma ReplyRises(c: Config, t: Table, r: Served, excluded: set<string>, attempt: nat, tried: string,
                   model: string, endpoint: string)
    requires ValidConfig(c) && ValidTable(c, t) && Alone(c, r) && attempt < ATTEMPTS
    requires Deadline(t, r.model, tried) <= c.clock(t.ticks)
    ensures var turn := AfterReply(c, t, r.model, excluded, attempt, tried, r.script);
            Rising(Deadline(t, model, endpoint), if r.model == model then Written(turn.entries, endpoint) else [],
                   Deadline(turn.table, model, endpoint))
  {
    var reply := r.script[attempt].reply;
    var turn := AfterReply(c, t, r.model, excluded, attempt, tried, r.script);
    if reply.ConnectFailed? {
      assert turn.entries[1..] == [];
    } else if reply.Answered? && Retryable(reply.status) {
      var cooled := Cool(c, t, r.model, tried, reply.retryAfter);
      RetryableKeepsCooldowns(c, cooled, r, excluded, attempt, reply.status);
      WrittenReply(Handed(attempt), Cooling(c, t, r.model, tried, attempt, reply.retryAfter),
                   AfterRetryable(c, cooled, r.model, excluded, attempt, reply.status, r.script).entries, endpoint);
    }
  }

  lemma RetryableKeepsCooldowns(c: Config, t: Table, r: Served, excluded: set<string>, attempt: nat, status: nat)
    requires ValidConfig(c) && ValidTable(c, t) && Alone(c, r) && attempt < ATTEMPTS
    ensures AfterRetryable(c, t, r.model, excluded, attempt, status, r.script).table.cooldowns == t.cooldowns
  {
    if attempt == 0 {
      var checked := t.(ticks := Alternate(c, t, r.model, excluded, 0).1);
      ReadsKeepCooldowns(c, checked, r.script[0].duringClose);
    }
  }

  lemma {:induction false} RequestRises(c: Config, t: Table, r: Served, excluded: set<string>, attempt: nat,
                                        model: string, endpoint: string)
    requires ValidConfig(c) && ValidTable(c, t) && Alone(c, r) && attempt <= ATTEMPTS
    ensures var trace := Attempts(c, t, r.model, excluded, attempt, r.script);
            Rising(Deadline(t, model, endpoint), if r.model == model then Written(trace.entries, endpoint) else [],
                   Deadline(trace.table, model, endpoint))
    decreases ATTEMPTS - attempt
  {
    if attempt == ATTEMPTS {
    } else {
      TurnValid(c, t, r.model, excluded, attempt, r.script);
      TurnRises(c, t, r, excluded, attempt, model, endpoint);
      var turn := TakeTurn(c, t, r.model, excluded, attempt, r.script);
      if turn.next.None? {
        RequestRises(c, turn.table, r, excluded + turn.tried, attempt + 1, model, endpoint);
        var rest := Attempts(c, turn.table, r.model, excluded + turn.tried, attempt + 1, r.script);
        WrittenJoin(turn.entries, rest.entries, endpoint);
        RisingJoin(Deadline(t, model, endpoint), if r.model == model then Written(turn.entries, endpoint) else [],
                   Deadline(turn.table, model, endpoint),
                   if r.model == model then Written(rest.entries, endpoint) else [],
                   Deadline(rest.table, model, endpoint));
      }
    }
  }

  // Over any run of requests that do not overlap, the deadlines an endpoint is
  // given strictly increase.
  lemma {:induction false} SerialDeadlinesRise(c: Config, t: Table, requests: seq<Served>, model: string, endpoint: string)
    returns (last: real)
    requires ValidConfig(c) && ValidTable(c, t)
    requires forall i :: 0 <= i < |requests| ==> Alone(c, requests[i])
    ensures Rising(Deadline(t, model, endpoint), Deadlines(c, t, requests, model, endpoint), last)
    decreases |requests|
  {
    if requests == [] {
      last := Deadline(t, model, endpoint);
    } else {
      var r := requests[0];
      assert Alone(c, r);
      AttemptsValid(c, t, r.model, {}, 0, r.script);
      RequestRises(c, t, r, {}, 0, model, endpoint);
      var trace := Attempts(c, t, r.model, {}, 0, r.script);
      last := SerialDeadlinesRise(c, trace.table, requests[1..], model, endpoint);
      RisingJoin(Deadline(t, model, endpoint), if r.model == model then Written(trace.entries, endpoint) else [],
                 Deadline(trace.table, model, endpoint), Deadlines(c, trace.table, requests[1..], model, endpoint), last);
    }
  }
}
