/**
 The life of one chat request: it may open an upstream exchange, it owns that
 exchange until it hands it to the streaming response, and whoever owns it last
 closes it and emits the terminal event.  A conversation lists what the client,
 the transport and the server do at every await.
 */
module Lifecycle {
  import opened Wrappers
  import opened EventStream
  import opened Scheduler
  import opened Failover
  import Rendering
  import SseRewriter
  import SseStream

  type Outcome = SseStream.Outcome
  type Usage = SseStream.Usage

  // The terminal `request` event
  datatype Record = Record(outcome: Outcome, status: nat, usage: Option<Usage>, closeFailed: bool)

  datatype Effect = Upstream(entry: Entry) | Emitted(record: Record)

  // The rendered completion, a sanitized error, a stream and what serving it raised, or no
  // answer because the request was cancelled
  datatype ClientReply = Delivered(body: Rendering.Value) | Errored(status: nat) | Streamed(raised: Option<Fault>) | Unanswered(fault: Fault)

  datatype Conversation = Conversation(
    intake: Option<Fault>,          // authorization, reading and validating the request body
    prepare: Option<Fault>,         // routing and compression
    model: string,
    alias: string,                  // the name the client asked for
    script: seq<Attempt>,
    streaming: bool,
    contentType: bool,              // the upstream content type fits what was asked for
    reading: Option<Fault>,         // collecting a non-streaming body
    body: Option<Rendering.Value>,  // that body, if it is JSON
    stream: Stream,
    serving: Option<Fault>,         // how serving the stream ended
    closing: Option<Fault>)         // closing the upstream response at the end

  // A streamed body and how far the server reads it: to its end, or until it has taken so
  // many frames and comes for no other.
  datatype Stream = Stream(codec: SseRewriter.Codec, limit: nat, chunks: seq<Bytes>, ending: SseStream.Ending,
                           taken: Option<nat>)

  function Rewriting(run: Conversation): SseStream.Machine {
    SseRewriter.Rewriter(run.stream.codec, run.alias, run.stream.limit)
  }

  function Played(run: Conversation): SseStream.StreamResult {
    SseStream.Streamed(Rewriting(run), [], run.stream.chunks, run.stream.ending)
  }

  // The interruption is recorded before its frame is handed over, the end of a complete
  // stream only after.
  function StreamOutcome(run: Conversation): Option<Outcome> {
    var r := Played(run);
    if run.stream.taken.None? then Some(r.outcome)
    else if r.outcome.Interrupted? && run.stream.taken.value >= |r.frames| then Some(r.outcome)
    else None
  }

  // Usage is recorded before the frame that reports it is handed over.
  function StreamUsage(run: Conversation): Option<Usage> {
    var usages := SseStream.StreamUsages(Rewriting(run), [], run.stream.chunks, run.stream.ending);
    var taken := run.stream.taken;
    SseStream.Noted(if taken.Some? && taken.value <= |usages| then usages[..taken.value] else usages)
  }

  ghost predicate ValidConversation(c: Config, run: Conversation) {
    run.model in c.models && ValidScript(c, run.script)
  }

  function StatusOf(fault: Fault): nat {
    match fault
    case NoReplica => 503
    case Refused => 502
    case GatewayFault(status) => status
    case Cancelled => 500
    case OtherFault => 500
  }

  // ------------------------------------------------------------------
  // The exchange and its owner
  // ------------------------------------------------------------------

  class Journal {
    var effects: seq<Effect>

    constructor ()
      ensures effects == []
    {
      effects := [];
    }
  }

  class Exchange {
    const response: nat   // the attempt whose response this is
    var status: nat       // event["status"]
    var usage: Option<Usage>
    var finished: bool

    constructor (response: nat, status: nat)
      ensures this.response == response && this.status == status && usage == None && !finished
    {
      this.response, this.status, usage, finished := response, status, None, false;
    }
  }

  // A failed close never leaves the outcome completed.
  function FinalOutcome(outcome: Outcome, closing: Option<Fault>): Outcome {
    if closing.Some? && outcome.Completed? then SseStream.Failed else outcome
  }

  function FinishEffects(response: nat, status: nat, usage: Option<Usage>, outcome: Outcome, closing: Option<Fault>): seq<Effect> {
    [Upstream(CloseCalled(response)), Emitted(Record(FinalOutcome(outcome, closing), status, usage, closing.Some?))]
  }

  // What escapes from finishing: only cancellation
  function Escaping(closing: Option<Fault>): Option<Fault> {
    if closing == Some(Cancelled) then closing else None
  }

  // Close and emit once; a second call changes nothing.  Only cancellation escapes.
  method Finish(exchange: Exchange, journal: Journal, outcome: Outcome, closing: Option<Fault>) returns (raised: Option<Fault>)
    modifies exchange`finished, journal
    ensures exchange.finished
    ensures old(exchange.finished) ==> raised == None && journal.effects == old(journal.effects)
    ensures !old(exchange.finished) ==>
              && raised == Escaping(closing)
              && journal.effects
                 == old(journal.effects) + FinishEffects(exchange.response, exchange.status, exchange.usage, outcome, closing)
  {
    if exchange.finished {
      return None;
    }
    exchange.finished := true;
    journal.effects := journal.effects + [Upstream(CloseCalled(exchange.response))];
    var last := outcome;
    if closing.Some? {
      if last.Completed? {
        last := SseStream.Failed;
      }
    }
    journal.effects := journal.effects + [Emitted(Record(last, exchange.status, exchange.usage, closing.Some?))];
    raised := if closing == Some(Cancelled) then closing else None;
  }

  // ------------------------------------------------------------------
  // What a conversation comes to
  // ------------------------------------------------------------------

  datatype Ending = Ending(effects: seq<Effect>, reply: ClientReply)

  function Transported(entries: seq<Entry>): seq<Effect> {
    seq(|entries|, i requires 0 <= i < |entries| => Upstream(entries[i]))
  }

  // How the body of the handler leaves an open exchange: by an exception or by returning
  // a response, with the usage and the outcome set so far.
  datatype Exit = Exit(fault: Option<Fault>, usage: Option<Usage>, outcome: Outcome)

  // The usage a completion reports
  function Reported(run: Conversation): Option<Usage>
    requires run.body.Some?
  {
    Rendering.UsageOf(Rendering.Get(run.body.value, Rendering.USAGE))
  }

  function Answer(run: Conversation, status: nat): Exit {
    if status >= 400 then Exit(Some(GatewayFault(status)), None, SseStream.Failed)
    else if !run.contentType then Exit(Some(GatewayFault(502)), None, SseStream.Failed)
    else if run.reading.Some? then Exit(run.reading, None, SseStream.Failed)
    else if run.body.None? || !Rendering.IsCompletion(run.body.value) then Exit(Some(GatewayFault(502)), None, SseStream.Failed)
    else if Rendering.Render(Rendering.Renamed(run.body.value, run.alias)).None?
    then Exit(Some(OtherFault), Reported(run), SseStream.Completed)   // set before the response is built
    else Exit(None, Reported(run), SseStream.Completed)
  }

  // The completion the client gets, when there is one
  function Completion(run: Conversation): Rendering.Value {
    if run.body.Some? && run.body.value.Dict? then Rendering.Renamed(run.body.value, run.alias) else Rendering.Null
  }

  function HandedOff(run: Conversation, status: nat): bool {
    run.streaming && status < 400 && run.contentType
  }

  function Settled(response: nat, status: nat, exit: Exit, body: Rendering.Value, closing: Option<Fault>): Ending {
    var Exit(fault, usage, outcome) := exit;
    var recorded := if fault.None? || fault.value == Cancelled then status else StatusOf(fault.value);
    var last := if fault == Some(Cancelled) then SseStream.Cancelled else outcome;
    Ending(FinishEffects(response, recorded, usage, last, closing),
           if closing == Some(Cancelled) || fault == Some(Cancelled) then Unanswered(Cancelled)
           else if fault.Some? then Errored(StatusOf(fault.value))
           else Delivered(body))
  }

  // What the owner of a stream records
  function ServedOutcome(run: Conversation): Outcome {
    var recorded := StreamOutcome(run);
    if recorded.Some? then recorded.value
    else if run.serving == Some(Cancelled) then SseStream.Cancelled
    else SseStream.Interrupted
  }

  // What escapes from serving a stream: a cancelled close supersedes it.
  function ServedRaise(run: Conversation): Option<Fault> {
    if Escaping(run.closing).Some? then run.closing else run.serving
  }

  function Concluded(run: Conversation, response: nat, status: nat): Ending {
    if HandedOff(run, status)
    then Ending(FinishEffects(response, status, StreamUsage(run), ServedOutcome(run), run.closing), Streamed(ServedRaise(run)))
    else Settled(response, status, Answer(run, status), Completion(run), run.closing)
  }

  // What a failure without an exchange records
  function RejectedOutcome(fault: Fault, opened_: bool): Outcome {
    if fault == Cancelled then SseStream.Cancelled
    else if opened_ || fault == OtherFault then SseStream.Failed
    else SseStream.Rejected
  }

  // A failure before or inside `open`.
  function Rejected(fault: Fault, opened_: bool): Ending {
    Ending(if !opened_ && fault == Cancelled then []
           else [Emitted(Record(RejectedOutcome(fault, opened_), StatusOf(fault), None, false))],
           if fault == Cancelled then Unanswered(Cancelled) else Errored(StatusOf(fault)))
  }

  function AfterOpen(run: Conversation, result: Opening): Ending {
    match result
    case Opened(response, status) => Concluded(run, response, status)
    case Failed(fault) => Rejected(fault, true)
    case LoopExhausted => Rejected(NoReplica, true)
  }

  ghost function Conversed(c: Config, t: Table, run: Conversation): Ending
    requires ValidConfig(c) && ValidTable(c, t) && ValidConversation(c, run)
  {
    if run.intake.Some? then Rejected(run.intake.value, false)
    else if run.prepare.Some? then Rejected(run.prepare.value, true)
    else
      var trace := Attempts(c, t, run.model, {}, 0, run.script);
      var ending := AfterOpen(run, trace.result);
      Ending(Transported(trace.entries) + ending.effects, ending.reply)
  }

  // ------------------------------------------------------------------
  // The program
  // ------------------------------------------------------------------

  // Gateway.open: whatever goes wrong before an exchange exists is recorded here.
  method OpenExchange(g: Gateway, journal: Journal, run: Conversation)
    returns (exchange: Exchange?, fault: Option<Fault>, ghost added: seq<Effect>)
    requires g.Valid() && ValidConversation(g.config, run)
    modifies g, journal
    ensures g.Valid()
    ensures exchange != null <==> fault.None?
    ensures exchange != null ==> fresh(exchange) && !exchange.finished && exchange.usage == None
    ensures journal.effects == old(journal.effects) + added
    ensures run.prepare.Some? ==> fault == run.prepare && added == Rejected(fault.value, true).effects
    ensures run.prepare.None? ==>
              var trace := Attempts(g.config, old(g.State()), run.model, {}, 0, run.script);
              match trace.result
              case Opened(response, status) =>
                && exchange != null && exchange.response == response && exchange.status == status
                && added == Transported(trace.entries)
              case _ =>
                && fault == Some(if trace.result.Failed? then trace.result.fault else NoReplica)
                && added == Transported(trace.entries) + Rejected(fault.value, true).effects
  {
    exchange, added := null, [];
    fault := run.prepare;
    if fault.None? {
      var entries, result := Open(g, run.model, run.script);
      journal.effects := journal.effects + Transported(entries);
      added := Transported(entries);
      match result {
        case Opened(response, status) =>
          exchange := new Exchange(response, status);
          return;
        case Failed(cause) => fault := Some(cause);
        case LoopExhausted => fault := Some(NoReplica);
      }
    }
    journal.effects := journal.effects
                       + [Emitted(Record(if fault.value == Cancelled then SseStream.Cancelled else SseStream.Failed,
                                         StatusOf(fault.value), None, false))];
    added := added + Rejected(fault.value, true).effects;
  }

  // OwnedStream.__call__
  method ServeStream(exchange: Exchange, journal: Journal, run: Conversation) returns (raised: Option<Fault>)
    requires !exchange.finished
    modifies exchange`finished, exchange`usage, journal
    ensures exchange.finished
    ensures raised == ServedRaise(run)
    ensures journal.effects
         == old(journal.effects)
            + FinishEffects(exchange.response, exchange.status, StreamUsage(run), ServedOutcome(run), run.closing)
  {
    exchange.usage := StreamUsage(run);
    var outcome := SseStream.Interrupted;
    if run.serving == Some(Cancelled) {
      outcome := SseStream.Cancelled;
    }
    var recorded := StreamOutcome(run);
    raised := Finish(exchange, journal, if recorded.Some? then recorded.value else outcome, run.closing);
    if raised.None? {
      raised := run.serving;
    }
  }

  // The body of the handler once the exchange is open.
  method Respond(run: Conversation, status: nat)
    returns (handedOff: bool, fault: Option<Fault>, usage: Option<Usage>, outcome: Outcome)
    ensures handedOff == HandedOff(run, status)
    ensures handedOff ==> usage == None
    ensures !handedOff ==> Exit(fault, usage, outcome) == Answer(run, status)
  {
    handedOff, fault, usage, outcome := false, None, None, SseStream.Failed;
    if status >= 400 {
      fault := Some(GatewayFault(status));
      return;
    }
    if !run.contentType {
      fault := Some(GatewayFault(502));
      return;
    }
    if run.streaming {
      handedOff := true;
      return;
    }
    if run.reading.Some? {
      fault := run.reading;
      return;
    }
    if run.body.None? || !Rendering.IsCompletion(run.body.value) {
      fault := Some(GatewayFault(502));
      return;
    }
    usage := Reported(run);
    outcome := SseStream.Completed;
    if Rendering.Render(Rendering.Renamed(run.body.value, run.alias)).None? {
      fault := Some(OtherFault);
    }
  }

  // What is still to be done when there is no exchange: a failure inside `open` has its event already.
  function Refusal(fault: Fault, opened_: bool): Ending {
    Ending(if opened_ then [] else Rejected(fault, false).effects, Rejected(fault, opened_).reply)
  }

  function Then(effects: seq<Effect>, rest: Ending): Ending {
    Ending(effects + rest.effects, rest.reply)
  }

  // The protected part of the handler
  method Handle(g: Gateway, journal: Journal, run: Conversation)
    returns (exchange: Exchange?, handedOff: bool, opened_: bool, fault: Option<Fault>, outcome: Outcome,
             ghost added: seq<Effect>)
    requires g.Valid() && ValidConversation(g.config, run)
    modifies g, journal
    ensures g.Valid()
    ensures journal.effects == old(journal.effects) + added
    ensures exchange == null ==>
              && !handedOff && fault.Some?
              && Conversed(g.config, old(g.State()), run) == Then(added, Refusal(fault.value, opened_))
    ensures exchange != null ==>
              && fresh(exchange) && !exchange.finished
              && handedOff == HandedOff(run, exchange.status)
              && (!handedOff ==> Exit(fault, exchange.usage, outcome) == Answer(run, exchange.status))
              && Conversed(g.config, old(g.State()), run) == Then(added, Concluded(run, exchange.response, exchange.status))
  {
    exchange, handedOff, opened_, fault, outcome, added := null, false, false, run.intake, SseStream.Failed, [];
    if fault.Some? {
      return;
    }
    opened_ := true;
    exchange, fault, added := OpenExchange(g, journal, run);
    if exchange == null {
      return;
    }
    handedOff, fault, exchange.usage, outcome := Respond(run, exchange.status);
  }

  method Chat(g: Gateway, journal: Journal, run: Conversation) returns (reply: ClientReply)
    requires g.Valid() && ValidConversation(g.config, run)
    modifies g, journal
    ensures g.Valid()
    ensures var ending := Conversed(g.config, old(g.State()), run);
            journal.effects == old(journal.effects) + ending.effects && reply == ending.reply
  {
    var exchange, handedOff, opened_, fault, outcome, _ := Handle(g, journal, run);
    reply := Conclude(exchange, journal, run, handedOff, opened_, fault, outcome);
  }

  // The handlers and the final clause, or the streaming response
  method Conclude(exchange: Exchange?, journal: Journal, run: Conversation, handedOff: bool, opened_: bool,
                  fault: Option<Fault>, outcome: Outcome)
    returns (reply: ClientReply)
    requires exchange == null ==> fault.Some? && !handedOff
    requires exchange != null ==> !exchange.finished && handedOff == HandedOff(run, exchange.status)
    requires exchange != null && !handedOff ==> Exit(fault, exchange.usage, outcome) == Answer(run, exchange.status)
    modifies exchange, journal
    ensures var rest := if exchange == null then Refusal(fault.value, opened_)
                        else Concluded(run, exchange.response, old(exchange.status));
            journal.effects == old(journal.effects) + rest.effects && reply == rest.reply
  {
    if exchange == null {
      reply := Refuse(journal, opened_, fault.value);
    } else if handedOff {
      var raised := ServeStream(exchange, journal, run);
      reply := Streamed(raised);
    } else {
      reply := Settle(exchange, journal, fault, outcome, Completion(run), run.closing);
    }
  }

  // The handlers, when there is no exchange
  method Refuse(journal: Journal, opened_: bool, fault: Fault) returns (reply: ClientReply)
    modifies journal
    ensures journal.effects == old(journal.effects) + Refusal(fault, opened_).effects
    ensures reply == Refusal(fault, opened_).reply
  {
    if fault == Cancelled {
      return Unanswered(Cancelled);
    }
    if !opened_ {
      var outcome := if fault == OtherFault then SseStream.Failed else SseStream.Rejected;
      journal.effects := journal.effects + [Emitted(Record(outcome, StatusOf(fault), None, false))];
    }
    reply := Errored(StatusOf(fault));
  }

  // The handlers and the final clause, for an exchange that was not handed off.
  method Settle(exchange: Exchange, journal: Journal, fault: Option<Fault>, outcome: Outcome, body: Rendering.Value,
                closing: Option<Fault>)
    returns (reply: ClientReply)
    requires !exchange.finished
    modifies exchange, journal
    ensures var ending := Settled(exchange.response, old(exchange.status), Exit(fault, old(exchange.usage), outcome), body, closing);
            journal.effects == old(journal.effects) + ending.effects && reply == ending.reply
  {
    var last := outcome;
    reply := Delivered(body);
    if fault.Some? {
      if fault.value == Cancelled {
        last := SseStream.Cancelled;
        reply := Unanswered(Cancelled);
      } else {
        exchange.status := StatusOf(fault.value);
        reply := Errored(exchange.status);
      }
    }
    var raised := Finish(exchange, journal, last, closing);
    if raised.Some? {
      reply := Unanswered(raised.value);
    }
  }

  // ------------------------------------------------------------------
  // What holds of every conversation
  // ------------------------------------------------------------------

  function Records(effects: seq<Effect>): seq<Record> {
    if effects == [] then []
    else (if effects[0].Emitted? then [effects[0].record] else []) + Records(effects[1..])
  }

  lemma {:induction false} TransportIsSilent(entries: seq<Entry>, rest: seq<Effect>)
    ensures Records(Transported(entries) + rest) == Records(rest)
  {
    if entries == [] {
      assert Transported(entries) + rest == rest;
    } else {
      assert (Transported(entries) + rest)[1..] == Transported(entries[1..]) + rest;
      TransportIsSilent(entries[1..], rest);
    }
  }

  lemma {:induction false} TransportedCount(entries: seq<Entry>, e: Entry)
    ensures multiset(Transported(entries))[Upstream(e)] == multiset(entries)[e]
  {
    if entries == [] {
    } else {
      TransportedCount(entries[1..], e);
      assert entries == [entries[0]] + entries[1..];
      assert Transported(entries) == [Upstream(entries[0])] + Transported(entries[1..]);
      assert multiset(entries) == multiset{entries[0]} + multiset(entries[1..]);
      assert multiset(Transported(entries)) == multiset{Upstream(entries[0])} + multiset(Transported(entries[1..]));
    }
  }

  lemma FinishRecords(response: nat, status: nat, usage: Option<Usage>, outcome: Outcome, closing: Option<Fault>)
    ensures Records(FinishEffects(response, status, usage, outcome, closing))
         == [Record(FinalOutcome(outcome, closing), status, usage, closing.Some?)]
  {
    var effects := FinishEffects(response, status, usage, outcome, closing);
    assert effects[1..] == [effects[1]] && |effects[1..][1..]| == 0;
    assert Records(effects) == Records(effects[1..]) == [effects[1].record];
  }

  lemma RejectedRecords(fault: Fault, opened_: bool)
    ensures Records(Rejected(fault, opened_).effects)
         == if !opened_ && fault == Cancelled then [] else [Record(RejectedOutcome(fault, opened_), StatusOf(fault), None, false)]
  {
    var effects := Rejected(fault, opened_).effects;
    if effects != [] { assert effects[1..] == []; }
  }

  // The completion the client is to get can be written.
  predicate Deliverable(run: Conversation) {
    && run.body.Some? && Rendering.IsCompletion(run.body.value)
    && Rendering.Renderable(Rendering.Renamed(run.body.value, run.alias))
  }

  // What one terminal record says, against the reply that goes with it
  predicate Told(run: Conversation, record: Record, reply: ClientReply) {
    && (record.closeFailed ==> !record.outcome.Completed?)
    && (record.outcome.Completed? && !reply.Streamed? ==>
          && run.body.Some? && Rendering.IsCompletion(run.body.value) && record.usage == Reported(run)
          && reply == if Deliverable(run) then Delivered(Completion(run)) else Errored(500))
    && (reply.Delivered? && run.closing.None? ==> record.outcome.Completed?)
    && (reply.Streamed? ==>
          && run.streaming && reply.raised == ServedRaise(run)
          && record.outcome == FinalOutcome(ServedOutcome(run), run.closing) && record.usage == StreamUsage(run))
  }

  lemma ConcludedRecords(run: Conversation, response: nat, status: nat)
    ensures var ending := Concluded(run, response, status);
            |Records(ending.effects)| == 1 && Told(run, Records(ending.effects)[0], ending.reply)
  {
    if HandedOff(run, status) {
      FinishRecords(response, status, StreamUsage(run), ServedOutcome(run), run.closing);
    } else {
      var Exit(fault, usage, outcome) := Answer(run, status);
      if run.body.Some? && Rendering.IsCompletion(run.body.value) {
        Rendering.RendersExactly(Rendering.Renamed(run.body.value, run.alias));
      }
      FinishRecords(response, if fault.None? || fault.value == Cancelled then status else StatusOf(fault.value),
                    usage, if fault == Some(Cancelled) then SseStream.Cancelled else outcome, run.closing);
    }
  }

  lemma AfterOpenRecords(run: Conversation, result: Opening)
    ensures var ending := AfterOpen(run, result);
            |Records(ending.effects)| == 1 && Told(run, Records(ending.effects)[0], ending.reply)
  {
    match result
    case Opened(response, status) => ConcludedRecords(run, response, status);
    case Failed(fault) => RejectedRecords(fault, true);
    case LoopExhausted => RejectedRecords(NoReplica, true);
  }

  lemma ConversedRecords(c: Config, t: Table, run: Conversation)
    requires ValidConfig(c) && ValidTable(c, t) && ValidConversation(c, run)
    ensures Records(Conversed(c, t, run).effects)
         == if run.intake.Some? then Records(Rejected(run.intake.value, false).effects)
            else if run.prepare.Some? then Records(Rejected(run.prepare.value, true).effects)
            else Records(AfterOpen(run, Attempts(c, t, run.model, {}, 0, run.script).result).effects)
  {
    if run.intake.None? && run.prepare.None? {
      var trace := Attempts(c, t, run.model, {}, 0, run.script);
      TransportIsSilent(trace.entries, AfterOpen(run, trace.result).effects);
    }
  }

  lemma AllTold(c: Config, t: Table, run: Conversation)
    requires ValidConfig(c) && ValidTable(c, t) && ValidConversation(c, run)
    ensures var records := Records(Conversed(c, t, run).effects);
            && |records| == (if run.intake == Some(Cancelled) then 0 else 1)
            && forall i :: 0 <= i < |records| ==> Told(run, records[i], Conversed(c, t, run).reply)
  {
    ConversedRecords(c, t, run);
    if run.intake.Some? {
      RejectedRecords(run.intake.value, false);
    } else if run.prepare.Some? {
      RejectedRecords(run.prepare.value, true);
    } else {
      AfterOpenRecords(run, Attempts(c, t, run.model, {}, 0, run.script).result);
    }
  }

  // Exactly one terminal event, unless the client cancels before the request is
  // opened; a failed close never leaves it completed.
  lemma OneTerminalEvent(c: Config, t: Table, run: Conversation)
    requires ValidConfig(c) && ValidTable(c, t) && ValidConversation(c, run)
    ensures var records := Records(Conversed(c, t, run).effects);
            && |records| == (if run.intake == Some(Cancelled) then 0 else 1)
            && forall i :: 0 <= i < |records| && records[i].closeFailed ==> !records[i].outcome.Completed?
  {
    AllTold(c, t, run);
  }

  // For a request that is not streamed: when the event says completed, the client got the
  // completion exactly if nothing in it resists being written, and an error 500 if
  // something does, because the outcome is set first; and a delivered completion whose
  // response was closed without trouble is recorded as completed.
  lemma CompletedMeansDelivered(c: Config, t: Table, run: Conversation)
    requires ValidConfig(c) && ValidTable(c, t) && ValidConversation(c, run)
    requires !run.streaming && Records(Conversed(c, t, run).effects) != []
    ensures var record, reply := Records(Conversed(c, t, run).effects)[0], Conversed(c, t, run).reply;
            && (record.outcome.Completed? ==>
                  && run.body.Some? && Rendering.IsCompletion(run.body.value) && record.usage == Reported(run)
                  && (reply.Delivered? <==> Rendering.Renderable(Rendering.Renamed(run.body.value, run.alias)))
                  && (!reply.Delivered? ==> reply == Errored(500)))
            && (reply.Delivered? && run.closing.None? ==> record.outcome.Completed?)
  {
    AllTold(c, t, run);
  }

  // {"choices":[NaN]}
  const NAN_BODY := Rendering.Dict([Rendering.Member(Rendering.CHOICES, Rendering.List([Rendering.NonFinite]))])

  // A run that is recorded completed although its client got an error
  lemma CompletedButErrored(run: Conversation)
    requires run.intake.None? && run.prepare.None? && run.model == "m" && !run.streaming && run.contentType
    requires run.reading.None? && run.closing.None? && run.body == Some(NAN_BODY)
    requires run.script == [Attempt([], Answered(200, None), [], None), Attempt([], ConnectFailed, [], None)]
    ensures ValidConfig(TwoReplicas()) && ValidTable(TwoReplicas(), EMPTY_TABLE) && ValidConversation(TwoReplicas(), run)
    ensures var ending := Conversed(TwoReplicas(), EMPTY_TABLE, run);
            ending.reply == Errored(500) && Records(ending.effects) == [Record(SseStream.Completed, 500, None, false)]
  {
    OpensAtOnce(run.script);
    NaNCannotBeWritten(run.alias);
    ConversedRecords(TwoReplicas(), EMPTY_TABLE, run);
    FinishRecords(0, 500, None, SseStream.Completed, None);
  }

  lemma OpensAtOnce(script: seq<Attempt>)
    requires script == [Attempt([], Answered(200, None), [], None), Attempt([], ConnectFailed, [], None)]
    ensures ValidConfig(TwoReplicas()) && ValidTable(TwoReplicas(), EMPTY_TABLE) && ValidScript(TwoReplicas(), script)
    ensures "m" in TwoReplicas().models
    ensures Attempts(TwoReplicas(), EMPTY_TABLE, "m", {}, 0, script).result == Opened(0, 200)
  {
    var c := TwoReplicas();
    assert c.models["m"] == ["a", "b"];
    assert Select(c, EMPTY_TABLE, "m", {}) == (Table(map["m" := 1], map[], 1), Some(0));
  }

  lemma NaNCannotBeWritten(alias: string)
    ensures Rendering.IsCompletion(NAN_BODY) && Rendering.Render(Rendering.Renamed(NAN_BODY, alias)).None?
    ensures Rendering.Get(NAN_BODY, Rendering.USAGE).None?
  {
    var members := NAN_BODY.members;
    assert Rendering.MODEL[0] == 0x6D && Rendering.ERROR[0] == 0x65 && Rendering.CHOICES[0] == 0x63 && Rendering.USAGE[0] == 0x75;
    assert members[0].key == Rendering.CHOICES;
    assert |members[1..]| == 0 && Rendering.Find(members[1..], Rendering.USAGE).None?;
    var value := Rendering.List([Rendering.NonFinite]);
    assert !Rendering.Renderable(value.items[0]);
    assert !Rendering.Renderable(value) && members[0].value == value;
    Rendering.RenamedExactly(NAN_BODY, alias);
    Rendering.RendersExactly(Rendering.Renamed(NAN_BODY, alias));
  }

  // For a request that is streamed: the event says completed exactly if the server read
  // the stream to its end, the last frame it read was the done frame, and the close did
  // not fail.  The usage is that of the frames it took, and of the whole stream if it read
  // it to its end.
  lemma StreamedMeansDone(c: Config, t: Table, run: Conversation)
    requires ValidConfig(c) && ValidTable(c, t) && ValidConversation(c, run)
    requires SseRewriter.Lawful(run.stream.codec)
    requires Conversed(c, t, run).reply.Streamed?
    ensures var records, stream := Records(Conversed(c, t, run).effects), run.stream;
            && |records| == 1
            && (records[0].outcome.Completed?
                <==> stream.taken.None? && run.closing.None? && SseStream.EndsDone(Rewriting(run), Played(run).frames))
            && records[0].usage == StreamUsage(run)
            && (stream.taken.None? ==> records[0].usage == Played(run).usage)
            && Conversed(c, t, run).reply.raised == ServedRaise(run)
  {
    AllTold(c, t, run);
    PlayedExactly(run);
  }

  lemma PlayedExactly(run: Conversation)
    requires SseRewriter.Lawful(run.stream.codec)
    ensures Played(run).outcome.Completed? <==> SseStream.EndsDone(Rewriting(run), Played(run).frames)
    ensures run.stream.taken.None? ==> StreamUsage(run) == Played(run).usage
  {
    SseRewriter.NoEventLooksTerminal(run.stream.codec, run.alias, run.stream.limit);
    SseStream.CompletedEndsDone(Rewriting(run), run.stream.chunks, run.stream.ending);
    SseStream.StreamReports(Rewriting(run), [], run.stream.chunks, run.stream.ending);
  }

  // What a conversation does, in order: the effects of its attempts, then the close of the
  // response it was opened with, then the terminal event.
  lemma EffectsExactly(c: Config, t: Table, run: Conversation)
    requires ValidConfig(c) && ValidTable(c, t) && ValidConversation(c, run)
    ensures var effects := Conversed(c, t, run).effects;
            if run.intake == Some(Cancelled) then effects == []
            else if run.intake.Some? || run.prepare.Some? then |effects| == 1 && effects[0].Emitted?
            else
              var trace := Attempts(c, t, run.model, {}, 0, run.script);
              var n := |trace.entries|;
              && |effects| == n + (if trace.result.Opened? then 2 else 1)
              && (forall i :: 0 <= i < n ==> effects[i] == Upstream(trace.entries[i]))
              && (trace.result.Opened? ==> effects[n] == Upstream(CloseCalled(trace.result.attempt)))
              && effects[|effects| - 1].Emitted?
  {
  }

  // ------------------------------------------------------------------
  // Who gets what
  // ------------------------------------------------------------------

  // The status a fault is reported with
  predicate HasStatus(fault: Fault, status: nat) {
    match fault
    case NoReplica => status == 503
    case Refused => status == 502
    case GatewayFault(own) => status == own
    case Cancelled => status == 500
    case OtherFault => status == 500
  }

  // The upstream response came and is of the kind that was asked for.
  ghost predicate Fits(c: Config, t: Table, run: Conversation)
    requires ValidConfig(c) && ValidTable(c, t) && ValidConversation(c, run)
  {
    && run.intake.None? && run.prepare.None?
    && var result := Attempts(c, t, run.model, {}, 0, run.script).result;
       result.Opened? && result.status < 400 && run.contentType
  }

  // The collected body is an object with choices and without an error.
  predicate IsCompletion(run: Conversation) {
    && run.reading.None? && run.body.Some? && run.body.value.Dict?
    && Rendering.Get(run.body.value, Rendering.Points("choices")).Some?
    && Rendering.Get(run.body.value, Rendering.Points("error")).None?
  }

  lemma CompletionExactly(value: Rendering.Value)
    ensures Rendering.IsCompletion(value) <==>
            && value.Dict?
            && Rendering.Get(value, Rendering.Points("choices")).Some?
            && Rendering.Get(value, Rendering.Points("error")).None?
  {
    if value.Dict? {
      Rendering.FindsExactly(value.members, Rendering.CHOICES);
      Rendering.FindsExactly(value.members, Rendering.ERROR);
    }
  }

  // The fault that keeps a request from its completion or its stream, in the order in which
  // faults are met
  ghost function FirstFault(c: Config, t: Table, run: Conversation): Option<Fault>
    requires ValidConfig(c) && ValidTable(c, t) && ValidConversation(c, run)
  {
    var result := Attempts(c, t, run.model, {}, 0, run.script).result;
    if run.intake.Some? then run.intake
    else if run.prepare.Some? then run.prepare
    else if !result.Opened? then Some(if result.Failed? then result.fault else NoReplica)
    else FaultAfter(run, result.status)
  }

  // Once the upstream response is open
  function FaultAfter(run: Conversation, status: nat): Option<Fault> {
    if status >= 400 then Some(GatewayFault(status))
    else if !run.contentType then Some(GatewayFault(502))
    else if run.streaming then None
    else if run.reading.Some? then run.reading
    else if !IsCompletion(run) then Some(GatewayFault(502))
    else if !Rendering.Renderable(Completion(run)) then Some(OtherFault)
    else None
  }

  // The reply, for every conversation: a stream if one was asked for and the upstream
  // response fits; otherwise the completion, if nothing is in the way; no answer if the
  // request or the final close was cancelled; and an error with the status of the first
  // fault in all other cases.
  lemma RepliesExactly(c: Config, t: Table, run: Conversation)
    requires ValidConfig(c) && ValidTable(c, t) && ValidConversation(c, run)
    ensures var reply, fault := Conversed(c, t, run).reply, FirstFault(c, t, run);
            var wasOpened := run.intake.None? && run.prepare.None? && Attempts(c, t, run.model, {}, 0, run.script).result.Opened?;
            && (reply.Streamed? <==> run.streaming && Fits(c, t, run))
            && (reply.Delivered? <==>
                  && !run.streaming && Fits(c, t, run) && IsCompletion(run)
                  && Rendering.Renderable(Rendering.Renamed(run.body.value, run.alias)) && run.closing != Some(Cancelled))
            && (reply.Delivered? ==> reply.body == Rendering.Renamed(run.body.value, run.alias))
            && (reply.Unanswered? <==>
                  !reply.Streamed? && (fault == Some(Cancelled) || (wasOpened && run.closing == Some(Cancelled))))
            && (reply.Errored? ==> fault.Some? && HasStatus(fault.value, reply.status))
  {
    if run.intake.None? && run.prepare.None? {
      BoundedSends(c, t, run.model, {}, 0, run.script);
      var result := Attempts(c, t, run.model, {}, 0, run.script).result;
      if result.Opened? { RepliesOnceOpen(run, result.attempt, result.status); }
    }
  }

  lemma RepliesOnceOpen(run: Conversation, response: nat, status: nat)
    ensures var reply, fault := Concluded(run, response, status).reply, FaultAfter(run, status);
            var fits := status < 400 && run.contentType;
            && (reply.Streamed? <==> run.streaming && fits)
            && (reply.Delivered? <==>
                  && !run.streaming && fits && IsCompletion(run)
                  && Rendering.Renderable(Rendering.Renamed(run.body.value, run.alias)) && run.closing != Some(Cancelled))
            && (reply.Delivered? ==> reply.body == Rendering.Renamed(run.body.value, run.alias))
            && (reply.Unanswered? <==> !reply.Streamed? && (fault == Some(Cancelled) || run.closing == Some(Cancelled)))
            && (reply.Errored? ==> fault.Some? && HasStatus(fault.value, reply.status))
  {
    if !HandedOff(run, status) { AnswersFault(run, status); }
  }

  // The handler's body ends with the first fault.
  lemma AnswersFault(run: Conversation, status: nat)
    requires !HandedOff(run, status)
    ensures Answer(run, status).fault == FaultAfter(run, status)
  {
    if run.body.Some? {
      CompletionExactly(run.body.value);
      if run.body.value.Dict? { Rendering.RendersExactly(Completion(run)); }
    }
  }

  // The terminal event, for every conversation.  Without an exchange it tells how the
  // request failed; with one, it says completed exactly if the stream was read to its done
  // frame, or the collected body was a completion, and the close did not fail.
  lemma RecordsExactly(c: Config, t: Table, run: Conversation)
    requires ValidConfig(c) && ValidTable(c, t) && ValidConversation(c, run)
    requires SseRewriter.Lawful(run.stream.codec)
    requires run.intake != Some(Cancelled)
    ensures |Records(Conversed(c, t, run).effects)| == 1
    ensures RecordFits(c, t, run, Records(Conversed(c, t, run).effects)[0])
  {
    ConversedRecords(c, t, run);
    AllTold(c, t, run);
    if run.intake.Some? {
      RejectedRecords(run.intake.value, false);
    } else if run.prepare.Some? {
      RejectedRecords(run.prepare.value, true);
    } else {
      BoundedSends(c, t, run.model, {}, 0, run.script);
      var result := Attempts(c, t, run.model, {}, 0, run.script).result;
      if result.Failed? {
        RejectedRecords(result.fault, true);
      } else {
        OpenedRecords(run, result.attempt, result.status);
      }
    }
  }

  ghost predicate RecordFits(c: Config, t: Table, run: Conversation, record: Record)
    requires ValidConfig(c) && ValidTable(c, t) && ValidConversation(c, run)
  {
    var result := Attempts(c, t, run.model, {}, 0, run.script).result;
    if run.intake.Some? then
      && record.outcome == (if run.intake == Some(OtherFault) then SseStream.Failed else SseStream.Rejected)
      && HasStatus(run.intake.value, record.status) && record.usage.None? && !record.closeFailed
    else if run.prepare.Some? then FailedRecord(run.prepare.value, record)
    else if result.Opened? then OpenedRecord(run, result.status, record)
    else result.Failed? && FailedRecord(result.fault, record)
  }

  // A failure inside `open`
  predicate FailedRecord(fault: Fault, record: Record) {
    && record.outcome == (if fault == Cancelled then SseStream.Cancelled else SseStream.Failed)
    && HasStatus(fault, record.status) && record.usage.None? && !record.closeFailed
  }

  // An exchange that was opened
  ghost predicate OpenedRecord(run: Conversation, status: nat, record: Record) {
    var fits, fault := status < 400 && run.contentType, FaultAfter(run, status);
    && (record.closeFailed <==> run.closing.Some?)
    && (record.outcome.Completed? <==>
          && fits && run.closing.None?
          && if run.streaming then run.stream.taken.None? && SseStream.EndsDone(Rewriting(run), Played(run).frames)
             else IsCompletion(run))
    && (!(fits && run.streaming) ==>
          && (record.outcome.Cancelled? <==> fits && run.reading == Some(Cancelled))
          && (!record.outcome.Completed? && !record.outcome.Cancelled? ==> record.outcome.Failed?)
          && (if fault.Some? && fault != Some(Cancelled) then HasStatus(fault.value, record.status) else record.status == status)
          && if fits && IsCompletion(run) then ReportsBody(run.body.value, record.usage) else record.usage.None?)
    && (fits && run.streaming ==>
          && record.status == status && ReportsTaken(run, record.usage)
          && (run.closing.None? ==> StreamRecord(run, record.outcome)))
  }

  // The usage of a body: what the object under its key "usage" counts, if there is one
  ghost predicate ReportsBody(body: Rendering.Value, usage: Option<Usage>) {
    var reported := Rendering.Get(body, Rendering.Points("usage"));
    if reported.Some? && reported.value.Dict?
    then usage.Some? && forall key :: Rendering.CounterReported(usage.value, reported.value, key)
    else usage.None?
  }

  // The usage of a stream: the last that one of the frames the server took reports
  ghost predicate ReportsTaken(run: Conversation, usage: Option<Usage>) {
    var reports, taken := SseStream.StreamUsages(Rewriting(run), [], run.stream.chunks, run.stream.ending), run.stream.taken;
    var seen := if taken.Some? && taken.value < |reports| then taken.value else |reports|;
    && |reports| == |Played(run).frames|
    && (usage.None? ==> forall i :: 0 <= i < seen ==> reports[i].None?)
    && (usage.Some? ==> exists i: nat :: i < seen && reports[i] == usage && forall j :: i < j < seen ==> reports[j].None?)
  }

  lemma TakenReports(run: Conversation)
    ensures ReportsTaken(run, StreamUsage(run))
  {
    var reports, taken := SseStream.StreamUsages(Rewriting(run), [], run.stream.chunks, run.stream.ending), run.stream.taken;
    var seen := if taken.Some? && taken.value < |reports| then taken.value else |reports|;
    SseStream.StreamReports(Rewriting(run), [], run.stream.chunks, run.stream.ending);
    assert reports[..|reports|] == reports;
    SseStream.NotedLast(reports[..seen]);
    assert SseStream.Noted(reports[..seen]) == StreamUsage(run);
    if i: nat :| SseStream.LastReport(reports[..seen], i) && reports[..seen][i] == StreamUsage(run) {
      assert reports[i] == StreamUsage(run) && forall j :: i < j < seen ==> reports[j] == reports[..seen][j];
    } else {
      assert forall i :: 0 <= i < seen ==> reports[i] == reports[..seen][i];
    }
  }

  // What is recorded of a stream: how it ended if it was read to its end; its interruption
  // if it was read up to the frame that says so; and otherwise how serving it ended.
  ghost predicate StreamRecord(run: Conversation, outcome: Outcome) {
    var r := Played(run);
    if run.stream.taken.None? || (r.outcome.Interrupted? && run.stream.taken.value >= |r.frames|) then outcome == r.outcome
    else outcome == if run.serving == Some(Cancelled) then SseStream.Cancelled else SseStream.Interrupted
  }

  lemma OpenedRecords(run: Conversation, response: nat, status: nat)
    requires SseRewriter.Lawful(run.stream.codec)
    ensures |Records(Concluded(run, response, status).effects)| == 1
    ensures OpenedRecord(run, status, Records(Concluded(run, response, status).effects)[0])
  {
    if HandedOff(run, status) {
      PlayedExactly(run);
      TakenReports(run);
      FinishRecords(response, status, StreamUsage(run), ServedOutcome(run), run.closing);
    } else {
      SettledRecords(run, response, status);
    }
  }

  lemma SettledRecords(run: Conversation, response: nat, status: nat)
    requires !HandedOff(run, status)
    ensures |Records(Concluded(run, response, status).effects)| == 1
    ensures OpenedRecord(run, status, Records(Concluded(run, response, status).effects)[0])
  {
    var Exit(fault, usage, outcome) := Answer(run, status);
    AnswersFault(run, status);
    if run.body.Some? {
      CompletionExactly(run.body.value);
      Rendering.UsageExactly(Rendering.Get(run.body.value, Rendering.USAGE));
    }
    FinishRecords(response, if fault.None? || fault.value == Cancelled then status else StatusOf(fault.value),
                  usage, if fault == Some(Cancelled) then SseStream.Cancelled else outcome, run.closing);
  }

  // The owner of an open exchange closes its response, and nothing else does.
  lemma OwnerCloses(run: Conversation, result: Opening, k: nat)
    ensures var effects := multiset(AfterOpen(run, result).effects);
            && effects[Upstream(Handed(k))] == 0
            && effects[Upstream(CloseCalled(k))] == if result.Opened? && result.attempt == k then 1 else 0
  {
  }

  // Every response the transport hands over is closed exactly once, whoever owns it last.
  lemma ClosedExactlyOnce(c: Config, t: Table, run: Conversation, k: nat)
    requires ValidConfig(c) && ValidTable(c, t) && ValidConversation(c, run)
    ensures var effects := multiset(Conversed(c, t, run).effects);
            effects[Upstream(CloseCalled(k))] == effects[Upstream(Handed(k))] <= 1
  {
    if run.intake.None? && run.prepare.None? {
      var trace := Attempts(c, t, run.model, {}, 0, run.script);
      var last := AfterOpen(run, trace.result).effects;
      ResponsesBalanced(c, t, run.model, {}, 0, run.script, k);
      TransportedCount(trace.entries, Handed(k));
      TransportedCount(trace.entries, CloseCalled(k));
      OwnerCloses(run, trace.result, k);
      assert multiset(Transported(trace.entries) + last) == multiset(Transported(trace.entries)) + multiset(last);
    }
  }
}
