/**
 The buffering loop of the streamed body, for any treatment of one event.
 Upstream bytes arrive in chunks of any size; this file relates the loop to a
 definition that sees the whole wire at once, and says for exactly which wires
 the two agree however the bytes are cut.
 */
module SseStream {
  import opened Wrappers
  import opened EventStream

  type Usage = map<string, nat>

  // What one complete event does: its rewritten frame and the usage it reports, the end marker, or a failure.
  datatype Action =
    | Forward(frame: Bytes, usage: Option<Usage>)
    | Finish
    | Abort

  // The two terminal frames are byte literals in the program.
  datatype Machine = Machine(handle: Bytes -> Action, limit: nat, doneFrame: Bytes, interruptedFrame: Bytes)

  // What becomes of a complete event, given the bytes before its delimiter.
  function React(m: Machine, body: Bytes): Action {
    if |body| > m.limit then Abort else m.handle(body)
  }

  // ------------------------------------------------------------------
  // The whole stream at once: the reference definition
  // ------------------------------------------------------------------

  // What the terminal event says; a stream only ever records the first three.
  datatype Outcome = Completed | Interrupted | Cancelled | Failed | Rejected

  // How the upstream chunks stop: end of file, a read failure, or cancellation while waiting.
  datatype Ending = EndOfFile | ReadFailed | CancelledRead

  datatype StreamResult = StreamResult(frames: seq<Bytes>, outcome: Outcome, usage: Option<Usage>)

  function Latest(before: Option<Usage>, after: Option<Usage>): Option<Usage> {
    if after.Some? then after else before
  }

  function After(frames: seq<Bytes>, usage: Option<Usage>, rest: StreamResult): StreamResult {
    StreamResult(frames + rest.frames, rest.outcome, Latest(usage, rest.usage))
  }

  lemma AfterAfter(frames: seq<Bytes>, usage: Option<Usage>, more: seq<Bytes>, later: Option<Usage>, rest: StreamResult)
    ensures After(frames, usage, After(more, later, rest)) == After(frames + more, Latest(usage, later), rest)
  {
    assert frames + (more + rest.frames) == frames + more + rest.frames;
  }

  function Interrupt(m: Machine): StreamResult {
    StreamResult([m.interruptedFrame], Interrupted, None)
  }

  function Ended(m: Machine, ending: Ending): StreamResult {
    if ending == CancelledRead then StreamResult([], Cancelled, None) else Interrupt(m)
  }

  // Split the whole wire into events and map the rewrite over them, up to the
  // first terminal one.  What follows the last delimiter is never forwarded.
  function OneShot(m: Machine, wire: Bytes, ending: Ending): StreamResult
    decreases |wire|
  {
    match Search(wire)
    case None => if |wire| > m.limit then Interrupt(m) else Ended(m, ending)
    case Some(span) =>
      match React(m, wire[..span.start])
      case Abort => Interrupt(m)
      case Finish => StreamResult([m.doneFrame], Completed, None)
      case Forward(frame, usage) => After([frame], usage, OneShot(m, wire[span.end..], ending))
  }

  // ------------------------------------------------------------------
  // The stream chunk by chunk
  // ------------------------------------------------------------------

  datatype Drained =
    | Pending(frames: seq<Bytes>, usage: Option<Usage>, rest: Bytes)
    | Stopped(result: StreamResult)

  // Frames already sent, put in front of what the rest of the buffer yields.
  function AfterDrained(frames: seq<Bytes>, usage: Option<Usage>, drained: Drained): Drained {
    match drained
    case Pending(more, later, rest) => Pending(frames + more, Latest(usage, later), rest)
    case Stopped(result) => Stopped(After(frames, usage, result))
  }

  // Consume every complete event of the buffer.
  function Drain(m: Machine, buffer: Bytes): Drained
    decreases |buffer|
  {
    match Search(buffer)
    case None => Pending([], None, buffer)
    case Some(span) =>
      match React(m, buffer[..span.start])
      case Abort => Stopped(Interrupt(m))
      case Finish => Stopped(StreamResult([m.doneFrame], Completed, None))
      case Forward(frame, usage) => AfterDrained([frame], usage, Drain(m, buffer[span.end..]))
  }

  function Streamed(m: Machine, buffer: Bytes, chunks: seq<Bytes>, ending: Ending): StreamResult
    decreases |chunks|, 1
  {
    if chunks == [] then Ended(m, ending)
    else Resume(m, Drain(m, buffer + chunks[0]), chunks[1..], ending)
  }

  // The size check between two chunks, and the chunks after it.
  function Resume(m: Machine, drained: Drained, chunks: seq<Bytes>, ending: Ending): StreamResult
    decreases |chunks|, 2
  {
    match drained
    case Stopped(result) => result
    case Pending(frames, usage, rest) =>
      if |rest| > m.limit then After(frames, usage, Interrupt(m))
      else After(frames, usage, Streamed(m, rest, chunks, ending))
  }

  lemma ResumeAfter(m: Machine, frames: seq<Bytes>, usage: Option<Usage>, drained: Drained,
                    chunks: seq<Bytes>, ending: Ending)
    ensures Resume(m, AfterDrained(frames, usage, drained), chunks, ending)
         == After(frames, usage, Resume(m, drained, chunks, ending))
  {
    if drained.Pending? {
      var rest := if |drained.rest| > m.limit then Interrupt(m) else Streamed(m, drained.rest, chunks, ending);
      AfterAfter(frames, usage, drained.frames, drained.usage, rest);
    }
  }

  // One chunk: what it lets out is sent before the rest of the stream.
  lemma StreamStep(m: Machine, sent: seq<Bytes>, seen: Option<Usage>, buffer: Bytes, chunks: seq<Bytes>, ending: Ending)
    requires chunks != []
    ensures var drained := Drain(m, buffer + chunks[0]);
            (After(sent, seen, Streamed(m, buffer, chunks, ending))
             == if drained.Stopped? then After(sent, seen, drained.result)
                else After(sent + drained.frames, Latest(seen, drained.usage),
                           if |drained.rest| > m.limit then Interrupt(m)
                           else Streamed(m, drained.rest, chunks[1..], ending)))
  {
    var drained := Drain(m, buffer + chunks[0]);
    if drained.Pending? {
      AfterAfter(sent, seen, drained.frames, drained.usage,
                 if |drained.rest| > m.limit then Interrupt(m) else Streamed(m, drained.rest, chunks[1..], ending));
    }
  }

  lemma AfterDrainedTwice(frames: seq<Bytes>, usage: Option<Usage>, more: seq<Bytes>, later: Option<Usage>, rest: Drained)
    ensures AfterDrained(frames, usage, AfterDrained(more, later, rest))
         == AfterDrained(frames + more, Latest(usage, later), rest)
  {
    if rest.Pending? {
      assert frames + (more + rest.frames) == frames + more + rest.frames;
    } else {
      AfterAfter(frames, usage, more, later, rest.result);
    }
  }

  // exchange.event, as far as the stream writes it
  class EventRecord {
    var usage: Option<Usage>
    var outcome: Option<Outcome>

    constructor ()
      ensures usage == None && outcome == None
    {
      usage, outcome := None, None;
    }
  }

  // The inner loop: every complete event of the buffer, up to a terminal one.
  method Consume(m: Machine, record: EventRecord, input: Bytes)
    returns (frames: seq<Bytes>, buffer: Bytes, stopped: bool)
    modifies record
    ensures match Drain(m, input)
            case Pending(sent, usage, rest) =>
              && !stopped && frames == sent && buffer == rest
              && record.usage == Latest(old(record.usage), usage) && record.outcome == old(record.outcome)
            case Stopped(result) =>
              && stopped && frames == result.frames
              && record.usage == Latest(old(record.usage), result.usage) && record.outcome == Some(result.outcome)
  {
    frames, buffer, stopped := [], input, false;
    ghost var seen: Option<Usage> := None;
    var found := Search(buffer);
    while found.Some?
      invariant found == Search(buffer)
      invariant Drain(m, input) == AfterDrained(frames, seen, Drain(m, buffer))
      invariant !stopped && record.usage == Latest(old(record.usage), seen) && record.outcome == old(record.outcome)
      decreases |buffer|
    {
      var action := React(m, buffer[..found.value.start]);
      if action.Abort? {
        frames, stopped := frames + [m.interruptedFrame], true;
        record.outcome := Some(Interrupted);
        return;
      }
      if action.Finish? {
        frames, stopped := frames + [m.doneFrame], true;
        record.outcome := Some(Completed);
        return;
      }
      buffer := buffer[found.value.end..];
      if action.usage.Some? {
        record.usage := action.usage;
      }
      AfterDrainedTwice(frames, seen, [action.frame], action.usage, Drain(m, buffer));
      frames := frames + [action.frame];
      seen := Latest(seen, action.usage);
      found := Search(buffer);
    }
  }

  method SseBody(m: Machine, record: EventRecord, chunks: seq<Bytes>, ending: Ending)
    returns (frames: seq<Bytes>)
    modifies record
    ensures var r := Streamed(m, [], chunks, ending);
            && frames == r.frames
            && record.outcome == Some(r.outcome)
            && record.usage == Latest(old(record.usage), r.usage)
  {
    frames := [];
    var buffer: Bytes := [];
    ghost var seen: Option<Usage> := None;
    assert chunks[0..] == chunks;
    for n := 0 to |chunks|
      invariant Streamed(m, [], chunks, ending) == After(frames, seen, Streamed(m, buffer, chunks[n..], ending))
      invariant record.usage == Latest(old(record.usage), seen)
    {
      assert chunks[n..][0] == chunks[n] && chunks[n..][1..] == chunks[n + 1..];
      StreamStep(m, frames, seen, buffer, chunks[n..], ending);
      ghost var drained := Drain(m, buffer + chunks[n]);
      var sent, rest, stopped := Consume(m, record, buffer + chunks[n]);
      frames, buffer := frames + sent, rest;
      if stopped {
        return;
      }
      if |buffer| > m.limit {
        frames := frames + [m.interruptedFrame];
        record.outcome := Some(Interrupted);
        return;
      }
      seen := Latest(seen, drained.usage);
    }
    if ending == CancelledRead {
      record.outcome := Some(Cancelled);
    } else {
      frames := frames + [m.interruptedFrame];
      record.outcome := Some(Interrupted);
    }
  }

  // ------------------------------------------------------------------
  // Cutting the wire differently
  // ------------------------------------------------------------------

  function Flatten(chunks: seq<Bytes>): Bytes {
    if chunks == [] then [] else chunks[0] + Flatten(chunks[1..])
  }

  // No event that is processed is so close to the limit that a chunk ending
  // inside its delimiter would trip the check on the unfinished buffer: the
  // event and all but the last byte of its delimiter fit.
  ghost predicate CutSafe(m: Machine, wire: Bytes)
    decreases |wire|
  {
    match Search(wire)
    case None => true
    case Some(span) =>
      match React(m, wire[..span.start])
      case Abort => true
      case Finish => span.end - 1 <= m.limit
      case Forward(_, _) => span.end - 1 <= m.limit && CutSafe(m, wire[span.end..])
  }

  // Draining the first part of a wire takes whole events off its front.
  lemma {:induction false} DrainPrefix(m: Machine, buffer: Bytes, more: Bytes, ending: Ending)
    ensures match Drain(m, buffer)
            case Stopped(result) => OneShot(m, buffer + more, ending) == result
            case Pending(frames, usage, rest) =>
              && Search(rest).None?
              && OneShot(m, buffer + more, ending) == After(frames, usage, OneShot(m, rest + more, ending))
              && (CutSafe(m, buffer + more) ==> CutSafe(m, rest + more))
    decreases |buffer|
  {
    SearchStable(buffer, more);
    if Search(buffer).None? {
    } else {
      var span := Search(buffer).value;
      assert (buffer + more)[..span.start] == buffer[..span.start];
      assert (buffer + more)[span.end..] == buffer[span.end..] + more;
      if React(m, buffer[..span.start]).Forward? {
        var Forward(frame, usage) := React(m, buffer[..span.start]);
        DrainPrefix(m, buffer[span.end..], more, ending);
        var drained := Drain(m, buffer[span.end..]);
        if drained.Pending? {
          AfterAfter([frame], usage, drained.frames, drained.usage, OneShot(m, drained.rest + more, ending));
        }
      }
    }
  }

  // A residue over the limit is fatal whatever follows it.
  lemma OverflowIsFatal(m: Machine, rest: Bytes, more: Bytes, ending: Ending)
    requires Search(rest).None? && |rest| > m.limit && CutSafe(m, rest + more)
    ensures OneShot(m, rest + more, ending) == Interrupt(m)
  {
    SearchStable(rest, more);
  }

  lemma {:induction false} CutsDoNotMatter(m: Machine, buffer: Bytes, chunks: seq<Bytes>, ending: Ending)
    requires Search(buffer).None? && |buffer| <= m.limit
    requires CutSafe(m, buffer + Flatten(chunks))
    ensures Streamed(m, buffer, chunks, ending) == OneShot(m, buffer + Flatten(chunks), ending)
    decreases |chunks|
  {
    if chunks == [] {
      assert buffer + Flatten(chunks) == buffer;
    } else {
      var more := Flatten(chunks[1..]);
      assert buffer + Flatten(chunks) == buffer + chunks[0] + more;
      DrainPrefix(m, buffer + chunks[0], more, ending);
      var drained := Drain(m, buffer + chunks[0]);
      if drained.Pending? {
        if |drained.rest| > m.limit {
          OverflowIsFatal(m, drained.rest, more, ending);
        } else {
          CutsDoNotMatter(m, drained.rest, chunks[1..], ending);
        }
      }
    }
  }

  // A cut can only interrupt a stream: one that completes is the one-shot result.
  lemma {:induction false} CompletedAgrees(m: Machine, buffer: Bytes, chunks: seq<Bytes>, ending: Ending)
    requires Streamed(m, buffer, chunks, ending).outcome == Completed
    ensures Streamed(m, buffer, chunks, ending) == OneShot(m, buffer + Flatten(chunks), ending)
    decreases |chunks|
  {
    assert chunks != [];
    var more := Flatten(chunks[1..]);
    assert buffer + Flatten(chunks) == buffer + chunks[0] + more;
    DrainPrefix(m, buffer + chunks[0], more, ending);
    var drained := Drain(m, buffer + chunks[0]);
    if drained.Pending? {
      CompletedAgrees(m, drained.rest, chunks[1..], ending);
    }
  }

  // The condition is tight: an unsafe wire has a cut into two chunks, the first
  // ending just before the last byte of a delimiter, that changes the result.
  lemma {:induction false} UnsafeCut(m: Machine, wire: Bytes, ending: Ending) returns (cut: nat)
    requires !CutSafe(m, wire)
    ensures cut <= |wire|
    ensures var cutUp, whole := Streamed(m, [], [wire[..cut], wire[cut..]], ending), OneShot(m, wire, ending);
            cutUp.frames != whole.frames || cutUp.outcome != whole.outcome
    decreases |wire|
  {
    var span := Search(wire).value;
    var action := React(m, wire[..span.start]);
    if span.end - 1 > m.limit {
      cut := span.end - 1;
      SearchInPrefix(wire, cut);
      TwoChunks(m, wire[..cut], wire[cut..], ending);
      if action.Forward? { OneShotIsLonger(m, wire[span.end..], ending); }
    } else {
      var rest := wire[span.end..];
      var later := UnsafeCut(m, rest, ending);
      cut := span.end + later;
      SearchInPrefix(wire, cut);
      assert wire[..cut][..span.start] == wire[..span.start];
      assert wire[..cut][span.end..] == rest[..later];
      assert wire[cut..] == rest[later..];
      TwoChunks(m, wire[..cut], wire[cut..], ending);
      TwoChunks(m, rest[..later], rest[later..], ending);
      ResumeAfter(m, [action.frame], action.usage, Drain(m, rest[..later]), [rest[later..]], ending);
      SamePrefix([action.frame], Resume(m, Drain(m, rest[..later]), [rest[later..]], ending).frames,
                 OneShot(m, rest, ending).frames);
    }
  }

  lemma SamePrefix(prefix: seq<Bytes>, a: seq<Bytes>, b: seq<Bytes>)
    ensures prefix + a == prefix + b ==> a == b
  {
    assert a == (prefix + a)[|prefix|..] && b == (prefix + b)[|prefix|..];
  }

  lemma TwoChunks(m: Machine, first: Bytes, second: Bytes, ending: Ending)
    ensures Streamed(m, [], [first, second], ending) == Resume(m, Drain(m, first), [second], ending)
  {
    assert [] + first == first;
    assert [first, second][1..] == [second];
  }

  // A result that was interrupted carries a frame saying so.
  lemma {:induction false} OneShotIsLonger(m: Machine, wire: Bytes, ending: Ending)
    ensures OneShot(m, wire, ending).outcome != Cancelled ==> OneShot(m, wire, ending).frames != []
    decreases |wire|
  {
    if Search(wire).None? || !React(m, wire[..Search(wire).value.start]).Forward? {
    } else {
      OneShotIsLonger(m, wire[Search(wire).value.end..], ending);
    }
  }

  // Exactly the cut-safe wires give one result for every way of cutting them.
  lemma ChunkingTheorem(m: Machine, wire: Bytes, ending: Ending)
    ensures CutSafe(m, wire)
       <==> (forall chunks: seq<Bytes> | Flatten(chunks) == wire ::
               Streamed(m, [], chunks, ending) == OneShot(m, wire, ending))
  {
    if CutSafe(m, wire) {
      forall chunks: seq<Bytes> | Flatten(chunks) == wire
        ensures Streamed(m, [], chunks, ending) == OneShot(m, wire, ending)
      {
        assert [] + Flatten(chunks) == wire;
        CutsDoNotMatter(m, [], chunks, ending);
      }
    } else {
      var cut := UnsafeCut(m, wire, ending);
      var chunks := [wire[..cut], wire[cut..]];
      assert chunks[1..] == [wire[cut..]];
      assert Flatten(chunks[1..]) == wire[cut..];
      assert Flatten(chunks) == wire;
    }
  }

  // ------------------------------------------------------------------
  // One terminal frame
  // ------------------------------------------------------------------

  // No rewritten event looks like the end of the stream, and the two ends differ.
  ghost predicate Distinguishable(m: Machine) {
    && m.doneFrame != m.interruptedFrame
    && forall body :: React(m, body).Forward? ==>
         React(m, body).frame != m.doneFrame && React(m, body).frame != m.interruptedFrame
  }

  ghost predicate Forwarded(m: Machine, frames: seq<Bytes>) {
    forall i :: 0 <= i < |frames| ==> frames[i] != m.doneFrame && frames[i] != m.interruptedFrame
  }

  // Forwarded frames, then one terminal frame that says how the stream ended;
  // a cancelled stream ends without one.
  ghost predicate WellEnded(m: Machine, r: StreamResult) {
    if r.outcome == Cancelled then Forwarded(m, r.frames)
    else
      && (r.outcome == Completed || r.outcome == Interrupted)
      && r.frames != []
      && Forwarded(m, r.frames[..|r.frames| - 1])
      && r.frames[|r.frames| - 1] == if r.outcome == Completed then m.doneFrame else m.interruptedFrame
  }

  lemma AfterWellEnded(m: Machine, frames: seq<Bytes>, usage: Option<Usage>, rest: StreamResult)
    requires Forwarded(m, frames) && WellEnded(m, rest)
    ensures WellEnded(m, After(frames, usage, rest))
  {
    var all := frames + rest.frames;
    if rest.outcome != Cancelled {
      assert all[..|all| - 1] == frames + rest.frames[..|rest.frames| - 1];
    }
  }

  lemma {:induction false} DrainWellEnded(m: Machine, buffer: Bytes)
    requires Distinguishable(m)
    ensures match Drain(m, buffer)
            case Pending(frames, _, _) => Forwarded(m, frames)
            case Stopped(result) => WellEnded(m, result) && result.outcome != Cancelled
    decreases |buffer|
  {
    if Search(buffer).None? {
    } else {
      var span := Search(buffer).value;
      var action := React(m, buffer[..span.start]);
      if action.Forward? {
        DrainWellEnded(m, buffer[span.end..]);
        if Drain(m, buffer[span.end..]).Stopped? {
          AfterWellEnded(m, [action.frame], action.usage, Drain(m, buffer[span.end..]).result);
        }
      }
    }
  }

  // However the stream is cut and however it stops, it ends exactly once; it is
  // cancelled only if the upstream read was.
  lemma {:induction false} StreamEndsOnce(m: Machine, buffer: Bytes, chunks: seq<Bytes>, ending: Ending)
    requires Distinguishable(m)
    ensures WellEnded(m, Streamed(m, buffer, chunks, ending))
    ensures Streamed(m, buffer, chunks, ending).outcome == Cancelled ==> ending == CancelledRead
    decreases |chunks|
  {
    if chunks == [] {
    } else {
      DrainWellEnded(m, buffer + chunks[0]);
      var drained := Drain(m, buffer + chunks[0]);
      if drained.Pending? && |drained.rest| <= m.limit { StreamEndsOnce(m, drained.rest, chunks[1..], ending); }
      ResumeEndsOnce(m, drained, chunks[1..], ending);
    }
  }

  lemma ResumeEndsOnce(m: Machine, drained: Drained, chunks: seq<Bytes>, ending: Ending)
    requires if drained.Pending? then Forwarded(m, drained.frames)
             else WellEnded(m, drained.result) && drained.result.outcome != Cancelled
    requires drained.Pending? && |drained.rest| <= m.limit ==>
               && WellEnded(m, Streamed(m, drained.rest, chunks, ending))
               && (Streamed(m, drained.rest, chunks, ending).outcome == Cancelled ==> ending == CancelledRead)
    ensures WellEnded(m, Resume(m, drained, chunks, ending))
    ensures Resume(m, drained, chunks, ending).outcome == Cancelled ==> ending == CancelledRead
  {
    if drained.Pending? {
      InterruptEnds(m);
      AfterWellEnded(m, drained.frames, drained.usage,
                     if |drained.rest| > m.limit then Interrupt(m) else Streamed(m, drained.rest, chunks, ending));
    }
  }

  lemma InterruptEnds(m: Machine)
    ensures WellEnded(m, Interrupt(m)) && Interrupt(m).outcome == Interrupted
  {
    assert Interrupt(m).frames[..0] == [];
  }

  // The outcome can be read off the last frame.
  predicate EndsDone(m: Machine, frames: seq<Bytes>) {
    frames != [] && frames[|frames| - 1] == m.doneFrame
  }

  lemma CompletedEndsDone(m: Machine, chunks: seq<Bytes>, ending: Ending)
    requires Distinguishable(m)
    ensures var r := Streamed(m, [], chunks, ending);
            r.outcome == Completed <==> EndsDone(m, r.frames)
  {
    StreamEndsOnce(m, [], chunks, ending);
  }

  // ------------------------------------------------------------------
  // Usage, frame by frame
  // ------------------------------------------------------------------

  // What each frame reports before it is handed over; frames that end a stream report nothing.
  function DrainUsages(m: Machine, buffer: Bytes): seq<Option<Usage>>
    decreases |buffer|
  {
    match Search(buffer)
    case None => []
    case Some(span) =>
      match React(m, buffer[..span.start])
      case Abort | Finish => [None]
      case Forward(_, usage) => [usage] + DrainUsages(m, buffer[span.end..])
  }

  function StreamUsages(m: Machine, buffer: Bytes, chunks: seq<Bytes>, ending: Ending): seq<Option<Usage>>
    decreases |chunks|
  {
    if chunks == [] then (if ending == CancelledRead then [] else [None])
    else
      var drained, usages := Drain(m, buffer + chunks[0]), DrainUsages(m, buffer + chunks[0]);
      match drained
      case Stopped(_) => usages
      case Pending(_, _, rest) =>
        usages + if |rest| > m.limit then [None] else StreamUsages(m, rest, chunks[1..], ending)
  }

  // The usage on record after these reports
  function Noted(usages: seq<Option<Usage>>): Option<Usage> {
    if usages == [] then None else Latest(usages[0], Noted(usages[1..]))
  }

  lemma {:induction false} NotedApart(a: seq<Option<Usage>>, b: seq<Option<Usage>>)
    ensures Noted(a + b) == Latest(Noted(a), Noted(b))
  {
    if a == [] {
      assert a + b == b;
    } else {
      assert (a + b)[1..] == a[1..] + b;
      NotedApart(a[1..], b);
    }
  }

  lemma NotedOne(usage: Option<Usage>)
    ensures Noted([usage]) == usage
  {
    assert [usage][1..] == [];
  }

  lemma {:induction false} DrainReports(m: Machine, buffer: Bytes)
    ensures match Drain(m, buffer)
            case Pending(frames, usage, _) =>
              |DrainUsages(m, buffer)| == |frames| && Noted(DrainUsages(m, buffer)) == usage
            case Stopped(r) => |DrainUsages(m, buffer)| == |r.frames| && Noted(DrainUsages(m, buffer)) == r.usage
    decreases |buffer|
  {
    NotedOne(None);
    if Search(buffer).None? {
    } else {
      var span := Search(buffer).value;
      var action := React(m, buffer[..span.start]);
      if action.Forward? {
        DrainReports(m, buffer[span.end..]);
        NotedOne(action.usage);
        NotedApart([action.usage], DrainUsages(m, buffer[span.end..]));
      }
    }
  }

  // There is one report for each frame, and together they are the usage of the stream.
  lemma {:induction false} StreamReports(m: Machine, buffer: Bytes, chunks: seq<Bytes>, ending: Ending)
    ensures var r, usages := Streamed(m, buffer, chunks, ending), StreamUsages(m, buffer, chunks, ending);
            |usages| == |r.frames| && Noted(usages) == r.usage
    decreases |chunks|
  {
    NotedOne(None);
    if chunks == [] {
    } else {
      DrainReports(m, buffer + chunks[0]);
      var drained := Drain(m, buffer + chunks[0]);
      if drained.Pending? {
        var rest := if |drained.rest| > m.limit then [None] else StreamUsages(m, drained.rest, chunks[1..], ending);
        if |drained.rest| <= m.limit { StreamReports(m, drained.rest, chunks[1..], ending); }
        NotedApart(DrainUsages(m, buffer + chunks[0]), rest);
      }
    }
  }

  // Each frame with its report: a forwarded event's own, or none for the frame that ends the stream.
  ghost predicate ReportsOwn(m: Machine, frame: Bytes, usage: Option<Usage>) {
    || (usage.None? && (frame == m.doneFrame || frame == m.interruptedFrame))
    || exists body :: |body| <= m.limit && m.handle(body) == Forward(frame, usage)
  }

  ghost predicate AllReportOwn(m: Machine, frames: seq<Bytes>, usages: seq<Option<Usage>>) {
    |usages| == |frames| && forall i :: 0 <= i < |frames| ==> ReportsOwn(m, frames[i], usages[i])
  }

  lemma ReportOwnJoin(m: Machine, a: seq<Bytes>, b: seq<Bytes>, x: seq<Option<Usage>>, y: seq<Option<Usage>>)
    requires AllReportOwn(m, a, x) && AllReportOwn(m, b, y)
    ensures AllReportOwn(m, a + b, x + y)
  {
  }

  lemma {:induction false} DrainReportsOwn(m: Machine, buffer: Bytes)
    ensures AllReportOwn(m, if Drain(m, buffer).Pending? then Drain(m, buffer).frames else Drain(m, buffer).result.frames,
                         DrainUsages(m, buffer))
    decreases |buffer|
  {
    if Search(buffer).None? {
    } else {
      var span := Search(buffer).value;
      var body := buffer[..span.start];
      if React(m, body).Forward? {
        DrainReportsOwn(m, buffer[span.end..]);
        var rest := Drain(m, buffer[span.end..]);
        assert ReportsOwn(m, React(m, body).frame, React(m, body).usage);
        ReportOwnJoin(m, [React(m, body).frame], if rest.Pending? then rest.frames else rest.result.frames,
                      [React(m, body).usage], DrainUsages(m, buffer[span.end..]));
      }
    }
  }

  lemma {:induction false} StreamReportsOwn(m: Machine, buffer: Bytes, chunks: seq<Bytes>, ending: Ending)
    ensures AllReportOwn(m, Streamed(m, buffer, chunks, ending).frames, StreamUsages(m, buffer, chunks, ending))
    decreases |chunks|
  {
    if chunks == [] {
    } else {
      DrainReportsOwn(m, buffer + chunks[0]);
      var drained := Drain(m, buffer + chunks[0]);
      if drained.Pending? {
        var over := |drained.rest| > m.limit;
        if !over { StreamReportsOwn(m, drained.rest, chunks[1..], ending); }
        ReportOwnJoin(m, drained.frames,
                      if over then Interrupt(m).frames else Streamed(m, drained.rest, chunks[1..], ending).frames,
                      DrainUsages(m, buffer + chunks[0]),
                      if over then [None] else StreamUsages(m, drained.rest, chunks[1..], ending));
      }
    }
  }

  ghost predicate LastReport(usages: seq<Option<Usage>>, i: nat) {
    i < |usages| && usages[i].Some? && forall j :: i < j < |usages| ==> usages[j].None?
  }

  // The usage on record is the last one that was reported.
  lemma {:induction false} NotedLast(usages: seq<Option<Usage>>)
    ensures Noted(usages).None? ==> forall i :: 0 <= i < |usages| ==> usages[i].None?
    ensures Noted(usages).Some? ==> exists i: nat :: LastReport(usages, i) && usages[i] == Noted(usages)
  {
    if usages == [] {
    } else {
      var rest := usages[1..];
      NotedLast(rest);
      assert forall j :: 1 <= j < |usages| ==> usages[j] == rest[j - 1];
      if i: nat :| LastReport(rest, i) && rest[i] == Noted(rest) {
        assert LastReport(usages, i + 1) && usages[i + 1] == rest[i];
      } else if Noted(usages).Some? {
        assert LastReport(usages, 0);
      }
    }
  }

  // ------------------------------------------------------------------
  // Event by event
  // ------------------------------------------------------------------

  // The wire cut at every delimiter; what follows the last one is no event.
  function Bodies(wire: Bytes): seq<Bytes>
    decreases |wire|
  {
    match Search(wire)
    case None => []
    case Some(span) => [wire[..span.start]] + Bodies(wire[span.end..])
  }

  function Residue(wire: Bytes): Bytes
    decreases |wire|
  {
    match Search(wire)
    case None => wire
    case Some(span) => Residue(wire[span.end..])
  }

  // The first `count` events are forwarded, each as its own frame with its own report.
  ghost predicate Forwards(m: Machine, bodies: seq<Bytes>, frames: seq<Bytes>, usages: seq<Option<Usage>>, count: nat) {
    && count <= |bodies| && count <= |frames| && |usages| == count
    && forall i :: 0 <= i < count ==> |bodies[i]| <= m.limit && m.handle(bodies[i]) == Forward(frames[i], usages[i])
  }

  // Where the forwarding stops, and with which frames and outcome the stream then ends
  ghost predicate Stops(m: Machine, wire: Bytes, ending: Ending, count: nat, last: seq<Bytes>, outcome: Outcome) {
    if count < |Bodies(wire)| then
      var body := Bodies(wire)[count];
      if |body| <= m.limit && m.handle(body).Finish? then last == [m.doneFrame] && outcome == Completed
      else
        && (|body| > m.limit || m.handle(body).Abort?)
        && last == [m.interruptedFrame] && outcome == Interrupted
    else if |Residue(wire)| <= m.limit && ending == CancelledRead then last == [] && outcome == Cancelled
    else last == [m.interruptedFrame] && outcome == Interrupted
  }

  // The one-shot result, by index: the events of the wire are forwarded in order until one
  // is the end marker, too large or refused, or the wire is used up.
  lemma {:induction false} EventByEvent(m: Machine, wire: Bytes, ending: Ending) returns (count: nat, usages: seq<Option<Usage>>)
    ensures var r := OneShot(m, wire, ending);
            && Forwards(m, Bodies(wire), r.frames, usages, count)
            && Stops(m, wire, ending, count, r.frames[count..], r.outcome)
            && r.usage == Noted(usages)
    decreases |wire|
  {
    count, usages := 0, [];
    if Search(wire).None? {
    } else {
      var span := Search(wire).value;
      var action := React(m, wire[..span.start]);
      if action.Forward? {
        var rest := wire[span.end..];
        var later, reports := EventByEvent(m, rest, ending);
        count, usages := later + 1, [action.usage] + reports;
        assert usages[1..] == reports;
        Shifted(m, wire, ending, action.frame, action.usage, later, reports);
      }
    }
  }

  lemma Shifted(m: Machine, wire: Bytes, ending: Ending, frame: Bytes, usage: Option<Usage>, count: nat,
                usages: seq<Option<Usage>>)
    requires Search(wire).Some?
    requires var span := Search(wire).value;
             && React(m, wire[..span.start]) == Forward(frame, usage)
             && var r := OneShot(m, wire[span.end..], ending);
                && Forwards(m, Bodies(wire[span.end..]), r.frames, usages, count)
                && Stops(m, wire[span.end..], ending, count, r.frames[count..], r.outcome)
    ensures var r := OneShot(m, wire, ending);
            && Forwards(m, Bodies(wire), r.frames, [usage] + usages, count + 1)
            && Stops(m, wire, ending, count + 1, r.frames[count + 1..], r.outcome)
  {
    var rest := wire[Search(wire).value.end..];
    var r, later := OneShot(m, wire, ending), OneShot(m, rest, ending);
    assert r.frames == [frame] + later.frames;
    assert r.frames[count + 1..] == later.frames[count..];
    assert Bodies(wire)[1..] == Bodies(rest);
  }

  // An event over the limit ends the stream however it arrives.
  lemma LargeEventIsRefused(m: Machine, wire: Bytes, chunks: seq<Bytes>, ending: Ending)
    requires Search(wire).Some? && Search(wire).value.start > m.limit && Flatten(chunks) == wire
    ensures Streamed(m, [], chunks, ending) == StreamResult([m.interruptedFrame], Interrupted, None)
  {
    assert [] + wire == wire;
    CutsDoNotMatter(m, [], chunks, ending);
  }
}
