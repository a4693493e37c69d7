/**
 Rewriting what has been rewritten.  The output of a completed stream, sent through
 the rewriter again, completes again with the same usage.  This file says exactly when
 it comes out byte for byte, and exactly when it comes out frame for frame.
 */
module SseReplay {
  import opened Wrappers
  import opened JsonValues
  import opened EventStream
  import opened SseStream
  import opened SseRewriter
  import opened SseLines

  // ------------------------------------------------------------------
  // One event
  // ------------------------------------------------------------------

  // The lines of a forwarded frame: either they carry no payload, or the last of
  // them carries a value that has been rewritten.
  ghost predicate Settled(codec: Codec, alias: string, lines: seq<string>, value: Option<Json>) {
    && lines != [] && AllOneLine(lines)
    && match value
       case None => Join(DataParts(lines)) == ""
       case Some(v) =>
         && codec.values(v) && Rewritten(alias, value) == value
         && lines[|lines| - 1] == "data: " + codec.dump(v)
         && forall i :: 0 <= i < |lines| - 1 ==> !IsData(lines[i])
  }

  function UsageIn(value: Option<Json>): Option<Usage> {
    if value.Some? then UsageOf(Get(value.value, "usage")) else None
  }

  lemma FrameSettles(codec: Codec, alias: string, text: string) returns (lines: seq<string>, value: Option<Json>)
    requires Lawful(codec) && HandleText(codec, alias, text).Forward?
    ensures Settled(codec, alias, lines, value)
    ensures HandleText(codec, alias, text) == Forward(Framed(codec, Join(lines)), UsageIn(value))
    ensures Tidy(SplitLines(text)) ==> OneEvent(lines)
  {
    var split := SplitLines(text);
    var data := Join(DataParts(split));
    if data == "" {
      lines, value := if split == [] then [""] else split, None;
    } else {
      value := Rewritten(alias, codec.load(data));
      RewrittenValue(codec, alias, codec.load(data));
      lines := OtherLines(split) + ["data: " + codec.dump(value.value)];
      OthersSettle(codec, alias, split, value.value);
    }
  }

  lemma OthersSettle(codec: Codec, alias: string, split: seq<string>, value: Json)
    requires AllOneLine(split) && codec.values(value) && Rewritten(alias, Some(value)) == Some(value)
    requires OneLine(codec.dump(value))
    ensures var lines := OtherLines(split) + ["data: " + codec.dump(value)];
            Settled(codec, alias, lines, Some(value)) && (Tidy(split) ==> OneEvent(lines))
  {
    var others, last := OtherLines(split), "data: " + codec.dump(value);
    OthersAreNotData(split);
    assert OneLine("data: ");
    OneLineConcat("data: ", codec.dump(value));
    if Tidy(split) { OthersTidy(split); }
    LastSettles(codec, alias, others, last, value);
  }

  lemma LastSettles(codec: Codec, alias: string, others: seq<string>, last: string, value: Json)
    requires AllOneLine(others) && OneLine(last) && last != "" && last == "data: " + codec.dump(value)
    requires forall i :: 0 <= i < |others| ==> !IsData(others[i])
    requires codec.values(value) && Rewritten(alias, Some(value)) == Some(value)
    ensures Settled(codec, alias, others + [last], Some(value))
    ensures (forall i :: 0 < i < |others| ==> others[i] != "") ==> OneEvent(others + [last])
  {
  }

  lemma {:induction false} OthersTidy(lines: seq<string>)
    requires forall i :: 0 < i < |lines| ==> lines[i] != ""
    ensures forall i :: 0 < i < |OtherLines(lines)| ==> OtherLines(lines)[i] != ""
    ensures lines != [] && lines[0] != "" ==> forall i :: 0 <= i < |OtherLines(lines)| ==> OtherLines(lines)[i] != ""
  {
    if lines == [] {
    } else {
      OthersTidy(lines[1..]);
    }
  }

  lemma DataLinesTidy(others: seq<string>, payload: string)
    requires AllOneLine(others) && OneLine(payload)
    requires forall i :: 0 < i < |others| ==> others[i] != ""
    ensures Tidy(others + ["data: " + payload])
  {
    assert OneLine("data: ");
    OneLineConcat("data: ", payload);
  }

  // No blank line after the first
  predicate OneEvent(lines: seq<string>) {
    forall i :: 0 < i < |lines| ==> lines[i] != ""
  }

  // Such lines make one event, which stays as it is.
  lemma PieceStays(codec: Codec, alias: string, lines: seq<string>, value: Option<Json>, text: string)
    requires Lawful(codec) && Settled(codec, alias, lines, value) && OneEvent(lines) && text == Join(lines)
    ensures Calm(codec.encode(text))
    ensures HandleText(codec, alias, text) == Forward(Framed(codec, text), UsageIn(value))
  {
    if value.Some? {
      var others := lines[..|lines| - 1];
      OthersAndData(codec, alias, lines, value.value);
      DataPieceStays(codec, alias, others, value.value, text);
    } else {
      QuietPieceStays(codec, alias, lines, text);
    }
  }

  lemma OthersAndData(codec: Codec, alias: string, lines: seq<string>, value: Json)
    requires Settled(codec, alias, lines, Some(value)) && OneEvent(lines)
    ensures var others := lines[..|lines| - 1];
            && lines == others + ["data: " + codec.dump(value)]
            && AllOneLine(others) && OneEvent(others)
            && forall i :: 0 <= i < |others| ==> !IsData(others[i])
  {
  }

  lemma QuietPieceStays(codec: Codec, alias: string, lines: seq<string>, text: string)
    requires LawfulText(codec) && lines != [] && AllOneLine(lines) && OneEvent(lines) && text == Join(lines)
    requires Join(DataParts(lines)) == ""
    ensures Calm(codec.encode(text))
    ensures HandleText(codec, alias, text) == Forward(Framed(codec, text), None)
  {
    if lines == [""] {
      EncodeEmpty(codec);
    } else {
      SplitJoin(lines);
      EncodeTidy(codec, lines);
    }
  }

  lemma DataPieceStays(codec: Codec, alias: string, others: seq<string>, value: Json, text: string)
    requires Lawful(codec) && codec.values(value) && Rewritten(alias, Some(value)) == Some(value)
    requires AllOneLine(others) && forall i :: 0 <= i < |others| ==> !IsData(others[i])
    requires forall i :: 0 < i < |others| ==> others[i] != ""
    requires text == Join(others + ["data: " + codec.dump(value)])
    ensures Calm(codec.encode(text))
    ensures HandleText(codec, alias, text) == Forward(Framed(codec, text), UsageOf(Get(value, "usage")))
  {
    var payload := codec.dump(value);
    var lines := others + ["data: " + payload];
    DataLinesTidy(others, payload);
    SplitJoin(lines);
    EncodeTidy(codec, lines);
    DataLine(others, payload);
    ValueHandled(codec, alias, text, others, value);
  }

  lemma ValueHandled(codec: Codec, alias: string, text: string, others: seq<string>, value: Json)
    requires LawfulJson(codec) && codec.values(value) && Rewritten(alias, Some(value)) == Some(value)
    requires var payload := codec.dump(value);
             var lines := SplitLines(text);
             && DataParts(lines) == [payload] && OtherLines(lines) == others
             && text == Join(others + ["data: " + payload])
    ensures HandleText(codec, alias, text) == Forward(Framed(codec, text), UsageOf(Get(value, "usage")))
  {
    assert codec.load(codec.dump(value)) == Some(value);
  }

  // A forwarded event with tidy lines is again one event, and is forwarded as it stands.
  lemma ReplayEvent(codec: Codec, alias: string, text: string) returns (again: string)
    requires Lawful(codec)
    requires Tidy(SplitLines(text)) && HandleText(codec, alias, text).Forward?
    ensures HandleText(codec, alias, text).frame == Framed(codec, again)
    ensures Calm(codec.encode(again))
    ensures HandleText(codec, alias, again) == HandleText(codec, alias, text)
  {
    var lines, value := FrameSettles(codec, alias, text);
    again := Join(lines);
    PieceStays(codec, alias, lines, value, again);
  }

  lemma DoneReplays(codec: Codec, alias: string)
    requires Lawful(codec)
    ensures Calm(codec.encode("data: " + DONE))
    ensures HandleText(codec, alias, "data: " + DONE) == Finish
  {
    TerminalPayloads(codec, alias);
    var lines := ["data: " + DONE];
    assert [] + lines == lines;
    SplitJoin(lines);
    EncodeTidy(codec, lines);
    DataLine([], DONE);
  }

  // ------------------------------------------------------------------
  // One frame, read again
  // ------------------------------------------------------------------

  // The frame is one event: its first delimiter is its end.
  predicate Whole(frame: Bytes) {
    |frame| >= 2 && Search(frame) == Some(Span(|frame| - 2, |frame|))
  }

  // How the rewriter reads one of its own events at the front of a wire
  lemma ReadFrame(codec: Codec, alias: string, limit: nat, text: string, more: Bytes)
    requires Lawful(codec) && Calm(codec.encode(text)) && |Framed(codec, text)| - 2 <= limit
    ensures var bytes, wire := codec.encode(text), Framed(codec, text) + more;
            && |Framed(codec, text)| == |bytes| + 2 <= |wire|
            && Search(wire) == Some(Span(|bytes|, |bytes| + 2))
            && wire[..|bytes|] == bytes && wire[|bytes| + 2..] == more
            && React(Rewriter(codec, alias, limit), bytes) == HandleText(codec, alias, text)
  {
    var bytes := codec.encode(text);
    FramedBytes(codec, text);
    SearchAfterCalm(bytes, more);
    assert codec.decode(bytes) == Some(text);
  }

  lemma CalmIsWhole(codec: Codec, text: string)
    requires LawfulText(codec) && Calm(codec.encode(text))
    ensures Whole(Framed(codec, text))
  {
    FramedBytes(codec, text);
    SearchAfterCalm(codec.encode(text), []);
    assert codec.encode(text) + [LF, LF] + [] == Framed(codec, text);
  }

  lemma WholeInFront(frame: Bytes, more: Bytes)
    requires Whole(frame) && more != []
    ensures !Whole(frame + more)
  {
    SearchStable(frame, more);
  }

  // How wires are read from a point on: what comes out, and whether cuts matter
  datatype Reader = Reader(shot: Bytes -> StreamResult, safe: Bytes -> bool, limit: nat)

  ghost function ReaderOf(m: Machine, again: Ending): Reader {
    Reader(wire => OneShot(m, wire, again), wire => CutSafe(m, wire), m.limit)
  }

  ghost predicate ReadsFrame(q: Reader, frame: Bytes, usage: Option<Usage>, rest: Bytes) {
    && q.shot(frame + rest) == After([frame], usage, q.shot(rest))
    && (|frame| - 1 <= q.limit && q.safe(rest) ==> q.safe(frame + rest))
    && Whole(frame) && !Odd(TrailingLFs(frame))
  }

  ghost predicate ReadsPiece(codec: Codec, q: Reader, lines: seq<string>, value: Option<Json>, rest: Bytes) {
    ReadsFrame(q, Framed(codec, Join(lines)), UsageIn(value), rest)
  }

  ghost predicate ReadsDone(q: Reader, done: Bytes, carry: Bytes) {
    && q.shot(carry + done) == StreamResult([done], Completed, None)
    && (|carry + done| - 1 <= q.limit ==> q.safe(carry + done))
  }

  // What the proofs below use of the rewriter: it forwards whole events as they stand,
  // and it recognises the done frame with or without a LF in front of it.
  ghost predicate Reads(codec: Codec, alias: string, q: Reader, done: Bytes) {
    && (forall lines, value, rest ::
          Settled(codec, alias, lines, value) && OneEvent(lines) && |Framed(codec, Join(lines))| - 2 <= q.limit ==>
            ReadsPiece(codec, q, lines, value, rest))
    && (|done| - 1 <= q.limit ==> ReadsDone(q, done, []) && ReadsDone(q, done, [LF]) && Whole(done))
  }

  lemma RewriterReads(codec: Codec, alias: string, m: Machine, again: Ending)
    requires Lawful(codec) && m == Rewriter(codec, alias, m.limit)
    ensures Reads(codec, alias, ReaderOf(m, again), m.doneFrame)
  {
    forall lines, value, rest | Settled(codec, alias, lines, value) && OneEvent(lines)
                                && |Framed(codec, Join(lines))| - 2 <= m.limit
      ensures ReadsPiece(codec, ReaderOf(m, again), lines, value, rest)
    {
      ReadPiece(codec, alias, m, lines, value, Join(lines), rest, again);
    }
    if |m.doneFrame| - 1 <= m.limit {
      ReadDone(codec, alias, m, [], again);
      ReadDone(codec, alias, m, [LF], again);
    }
  }

  lemma ReadPiece(codec: Codec, alias: string, m: Machine, lines: seq<string>, value: Option<Json>, text: string,
                  rest: Bytes, again: Ending)
    requires Lawful(codec) && m == Rewriter(codec, alias, m.limit)
    requires Settled(codec, alias, lines, value) && OneEvent(lines) && text == Join(lines)
    requires |Framed(codec, text)| - 2 <= m.limit
    ensures ReadsFrame(ReaderOf(m, again), Framed(codec, text), UsageIn(value), rest)
  {
    PieceStays(codec, alias, lines, value, text);
    ReadText(codec, alias, m, text, Framed(codec, text), UsageIn(value), rest, again);
    CalmIsWhole(codec, text);
    FrameEndsEven(codec, text);
  }

  lemma ReadText(codec: Codec, alias: string, m: Machine, text: string, out: Bytes, usage: Option<Usage>, rest: Bytes, again: Ending)
    requires Lawful(codec) && m == Rewriter(codec, alias, m.limit)
    requires Calm(codec.encode(text)) && |Framed(codec, text)| - 2 <= m.limit
    requires HandleText(codec, alias, text) == Forward(out, usage)
    ensures var frame := Framed(codec, text);
            && OneShot(m, frame + rest, again) == After([out], usage, OneShot(m, rest, again))
            && (|frame| - 1 <= m.limit && CutSafe(m, rest) ==> CutSafe(m, frame + rest))
  {
    ReadFrame(codec, alias, m.limit, text, rest);
  }

  // The first blank line behind the first line
  function FirstBlank(lines: seq<string>, from: nat := 1): (j: nat)
    requires from <= |lines|
    ensures from <= j <= |lines| && (j < |lines| ==> lines[j] == "")
    ensures forall i :: from <= i < j ==> lines[i] != ""
    decreases |lines| - from
  {
    if from == |lines| || lines[from] == "" then from else FirstBlank(lines, from + 1)
  }

  lemma EmptyJoin(a: seq<string>, b: seq<string>)
    requires Join(a + b) == ""
    ensures Join(a) == "" && Join(b) == ""
  {
    assert |a + b| > 1 ==> |Join(a + b)| > 0;
    assert a == [] || b == [];
    assert a + [] == a && [] + b == b;
  }

  // Cut at a blank line, both parts are settled, and only the second carries a payload.
  lemma SettledApart(codec: Codec, alias: string, lines: seq<string>, value: Option<Json>, j: nat)
    requires Settled(codec, alias, lines, value) && 0 < j < |lines| && lines[j] == ""
    ensures Settled(codec, alias, lines[..j], None)
    ensures j + 1 < |lines| ==> Settled(codec, alias, lines[j + 1..], value)
    ensures j + 1 == |lines| ==> value == None
  {
    if value.None? {
      QuietApart(lines, j);
    } else {
      NoData(lines[..j]);
    }
  }

  lemma QuietApart(lines: seq<string>, j: nat)
    requires j < |lines| && Join(DataParts(lines)) == ""
    ensures Join(DataParts(lines[..j])) == "" && Join(DataParts(lines[j + 1..])) == ""
  {
    var a, b := lines[..j], lines[j..];
    assert lines == a + b && b == [b[0]] + lines[j + 1..];
    DataPartsApart(a, b);
    DataPartsApart([b[0]], lines[j + 1..]);
    EmptyJoin(DataParts(a), DataParts(b));
    EmptyJoin(DataParts([b[0]]), DataParts(lines[j + 1..]));
  }

  lemma {:induction false} NoData(lines: seq<string>)
    requires forall i :: 0 <= i < |lines| ==> !IsData(lines[i])
    ensures DataParts(lines) == []
  {
    if lines == [] {
    } else {
      NoData(lines[1..]);
    }
  }

  // Read again, a frame falls apart at its blank lines.  Every part is forwarded as it
  // stands, and at most one LF is left over for the next frame.
  ghost predicate Resplits(q: Reader, frame: Bytes, usage: Option<Usage>, frames: seq<Bytes>, carry: Bytes, rest: Bytes) {
    && Parts(frame, frames, carry)
    && q.shot(frame + rest) == After(frames, usage, q.shot(carry + rest))
    && (|frame| - 1 <= q.limit && q.safe(carry + rest) ==> q.safe(frame + rest))
  }

  ghost predicate Parts(frame: Bytes, frames: seq<Bytes>, carry: Bytes) {
    && (carry == [] || carry == [LF])
    && frames != [] && Flatten(frames) + carry == frame && !Odd(TrailingLFs(Flatten(frames)))
    && (if Whole(frame) then frames == [frame] && carry == [] else frames[0] != frame)
  }

  lemma {:induction false} Resplit(codec: Codec, alias: string, q: Reader, done: Bytes, lines: seq<string>,
                                   value: Option<Json>, frame: Bytes, rest: Bytes)
    returns (frames: seq<Bytes>, carry: Bytes)
    requires LawfulText(codec) && Reads(codec, alias, q, done)
    requires Settled(codec, alias, lines, value) && frame == Framed(codec, Join(lines)) && |frame| - 2 <= q.limit
    ensures Resplits(q, frame, UsageIn(value), frames, carry, rest)
    decreases |lines|
  {
    var j := FirstBlank(lines);
    if j == |lines| {
      assert ReadsPiece(codec, q, lines, value, rest);
      OnePiece(q, frame, UsageIn(value), rest);
      frames, carry := [frame], [];
    } else {
      var piece, more := FirstPiece(codec, alias, q, done, lines, value, j, rest);
      if j + 1 == |lines| {
        LastPiece(q, piece, rest);
        frames, carry := [piece], [LF];
      } else {
        frames, carry := Resplit(codec, alias, q, done, lines[j + 1..], value, more, rest);
        MorePieces(q, piece, more, UsageIn(value), frames, carry, rest);
        frames := [piece] + frames;
      }
    }
  }

  // What stands before the first blank line is read as one event.
  lemma FirstPiece(codec: Codec, alias: string, q: Reader, done: Bytes, lines: seq<string>, value: Option<Json>, j: nat,
                   rest: Bytes)
    returns (piece: Bytes, more: Bytes)
    requires LawfulText(codec) && Reads(codec, alias, q, done)
    requires Settled(codec, alias, lines, value) && |Framed(codec, Join(lines))| - 2 <= q.limit
    requires 0 < j < |lines| && lines[j] == "" && OneEvent(lines[..j])
    ensures Framed(codec, Join(lines)) == piece + more && piece != [] && more != []
    ensures ReadsFrame(q, piece, None, more + rest)
    ensures if j + 1 == |lines| then value == None && more == [LF]
            else Settled(codec, alias, lines[j + 1..], value) && more == Framed(codec, Join(lines[j + 1..]))
  {
    piece, more := FrameParts(codec, lines, j);
    SettledApart(codec, alias, lines, value, j);
    assert ReadsPiece(codec, q, lines[..j], None, more + rest);
  }

  // A frame is its first event and what the blank line separates from it.
  lemma FrameParts(codec: Codec, lines: seq<string>, j: nat) returns (piece: Bytes, more: Bytes)
    requires LawfulText(codec) && 0 < j < |lines| && lines[j] == ""
    ensures piece == Framed(codec, Join(lines[..j]))
    ensures more == if j + 1 == |lines| then [LF] else Framed(codec, Join(lines[j + 1..]))
    ensures Framed(codec, Join(lines)) == piece + more && piece != [] && more != []
  {
    var first, tail := lines[..j], lines[j + 1..];
    piece := Framed(codec, Join(first));
    FramedBytes(codec, Join(first));
    if tail == [] {
      assert lines == first + [""];
      FrameBlankEnd(codec, first);
      more := [LF];
    } else {
      assert lines == first + [""] + tail;
      FrameApart(codec, first, tail);
      FramedBytes(codec, Join(tail));
      more := Framed(codec, Join(tail));
    }
  }

  lemma OnePiece(q: Reader, frame: Bytes, usage: Option<Usage>, rest: Bytes)
    requires ReadsFrame(q, frame, usage, rest)
    ensures Resplits(q, frame, usage, [frame], [], rest)
  {
    OneFlat(frame);
    assert frame + [] == frame && [] + rest == rest;
  }

  lemma LastPiece(q: Reader, piece: Bytes, rest: Bytes)
    requires ReadsFrame(q, piece, None, [LF] + rest)
    ensures Resplits(q, piece + [LF], None, [piece], [LF], rest)
  {
    WholeInFront(piece, [LF]);
    OneFlat(piece);
    assert piece + [LF] + rest == piece + ([LF] + rest);
    assert |piece + [LF]| == |piece| + 1;
  }

  lemma MorePieces(q: Reader, piece: Bytes, more: Bytes, usage: Option<Usage>, frames: seq<Bytes>, carry: Bytes, rest: Bytes)
    requires ReadsFrame(q, piece, None, more + rest) && more != []
    requires Resplits(q, more, usage, frames, carry, rest)
    ensures Resplits(q, piece + more, usage, [piece] + frames, carry, rest)
  {
    WholeInFront(piece, more);
    MoreParts(piece, more, frames, carry);
    MoreShots(q, piece, more, usage, frames, carry + rest, rest);
  }

  lemma MoreShots(q: Reader, piece: Bytes, more: Bytes, usage: Option<Usage>, frames: seq<Bytes>, next: Bytes, rest: Bytes)
    requires q.shot(piece + (more + rest)) == After([piece], None, q.shot(more + rest))
    requires |piece| - 1 <= q.limit && q.safe(more + rest) ==> q.safe(piece + (more + rest))
    requires q.shot(more + rest) == After(frames, usage, q.shot(next))
    requires |more| - 1 <= q.limit && q.safe(next) ==> q.safe(more + rest)
    ensures q.shot(piece + more + rest) == After([piece] + frames, usage, q.shot(next))
    ensures |piece + more| - 1 <= q.limit && q.safe(next) ==> q.safe(piece + more + rest)
  {
    Regrouped(piece, more, rest);
    AfterAfter([piece], None, frames, usage, q.shot(next));
  }

  lemma MoreParts(piece: Bytes, more: Bytes, frames: seq<Bytes>, carry: Bytes)
    requires Parts(more, frames, carry) && more != [] && !Whole(piece + more) && !Odd(TrailingLFs(piece))
    ensures Parts(piece + more, [piece] + frames, carry)
  {
    assert ([piece] + frames)[1..] == frames;
    assert Flatten([piece] + frames) == piece + Flatten(frames);
    assert piece + Flatten(frames) + carry == piece + (Flatten(frames) + carry);
    TrailingAfterEven(piece, Flatten(frames));
    assert |piece + more| > |piece|;
  }

  // ------------------------------------------------------------------
  // The end of the stream, read again
  // ------------------------------------------------------------------

  // A blank line and a data line
  lemma BlankThenData(codec: Codec, payload: string)
    requires LawfulText(codec) && OneLine("data: " + payload) && payload != "" && payload[0] != ' '
    ensures var text := "\n" + ("data: " + payload);
            Calm(codec.encode(text)) && DataParts(SplitLines(text)) == [payload]
  {
    var last := "data: " + payload;
    var lines := [""] + [last];
    assert lines[1..] == [last] && Tidy(lines);
    assert Join([last]) == last && Join(lines) == "" + "\n" + last == "\n" + last;
    SplitJoin(lines);
    EncodeTidy(codec, lines);
    DataLine([""], payload);
  }

  lemma EndFrame(codec: Codec, alias: string, m: Machine, text: string, again: Ending)
    requires Lawful(codec) && m == Rewriter(codec, alias, m.limit)
    requires Calm(codec.encode(text)) && |Framed(codec, text)| - 2 <= m.limit
    requires HandleText(codec, alias, text) == Finish
    ensures OneShot(m, Framed(codec, text), again) == StreamResult([m.doneFrame], Completed, None)
    ensures |Framed(codec, text)| - 1 <= m.limit ==> CutSafe(m, Framed(codec, text))
  {
    ReadFrame(codec, alias, m.limit, text, []);
    assert Framed(codec, text) + [] == Framed(codec, text);
  }

  // The done frame, with or without a LF in front of it
  lemma ReadDone(codec: Codec, alias: string, m: Machine, carry: Bytes, again: Ending)
    requires Lawful(codec) && m == Rewriter(codec, alias, m.limit)
    requires (carry == [] || carry == [LF]) && |m.doneFrame| - 1 <= m.limit
    ensures OneShot(m, carry + m.doneFrame, again) == StreamResult([m.doneFrame], Completed, None)
    ensures |carry + m.doneFrame| - 1 <= m.limit ==> CutSafe(m, carry + m.doneFrame)
    ensures Whole(m.doneFrame)
  {
    var text := "data: " + DONE;
    DoneReplays(codec, alias);
    CalmIsWhole(codec, text);
    if carry == [] {
      assert carry + m.doneFrame == m.doneFrame;
      EndFrame(codec, alias, m, text, again);
    } else {
      BlankDone(codec, alias);
      EndFrame(codec, alias, m, "\n" + text, again);
    }
  }

  lemma BlankDone(codec: Codec, alias: string)
    requires Lawful(codec)
    ensures var text := "\n" + ("data: " + DONE);
            && Calm(codec.encode(text)) && HandleText(codec, alias, text) == Finish
            && Framed(codec, text) == [LF] + Framed(codec, "data: " + DONE)
  {
    var last := "data: " + DONE;
    TerminalPayloads(codec, alias);
    BlankThenData(codec, DONE);
    FramedBytes(codec, last);
    FramedBytes(codec, "\n" + last);
  }

  // ------------------------------------------------------------------
  // The whole stream
  // ------------------------------------------------------------------

  ghost predicate Fit(frames: seq<Bytes>, size: nat) {
    forall i :: 0 <= i < |frames| ==> |frames[i]| <= size
  }

  ghost predicate AllWhole(frames: seq<Bytes>) {
    forall i :: 0 <= i < |frames| ==> Whole(frames[i])
  }

  // The bytes in front of the last frame
  function BeforeLast(frames: seq<Bytes>): Bytes
    requires frames != []
  {
    Flatten(frames[..|frames| - 1])
  }

  // What comes out of a second reading: an odd run of LF bytes loses its last one.
  function Settle(bytes: Bytes): Bytes {
    if Odd(TrailingLFs(bytes)) then bytes[..|bytes| - 1] else bytes
  }

  // The second reading of a completed stream: all that is said of it
  ghost predicate Replays(q: Reader, r: StreamResult, done: Bytes, carry: Bytes) {
    && r.frames != [] && r.frames[|r.frames| - 1] == done
    && Replayed(q.shot(carry + Flatten(r.frames)), r, done, carry)
    && (CarriedFit(r.frames, q.limit, carry) ==> q.safe(carry + Flatten(r.frames)))
  }

  ghost predicate Replayed(twice: StreamResult, r: StreamResult, done: Bytes, carry: Bytes)
    requires r.frames != []
  {
    && twice.outcome == Completed && twice.usage == r.usage
    && Flatten(twice.frames) == Settle(carry + BeforeLast(r.frames)) + done
    && (carry == [] ==> (twice.frames == r.frames <==> AllWhole(r.frames)))
  }

  // Every event of the second reading fits with all but the last byte of its delimiter.
  ghost predicate CarriedFit(frames: seq<Bytes>, limit: nat, carry: Bytes) {
    Fit(frames, limit) || (carry == [] && AllWhole(frames))
  }

  // Every way the output of a completed stream can be read again, a LF of an earlier
  // frame possibly in front of it
  lemma {:induction false} Replay(codec: Codec, alias: string, m: Machine, wire: Bytes, ending: Ending, q: Reader, carry: Bytes)
    requires Lawful(codec) && m == Rewriter(codec, alias, m.limit)
    requires q.limit == m.limit && Reads(codec, alias, q, m.doneFrame)
    requires carry == [] || carry == [LF]
    requires OneShot(m, wire, ending).outcome == Completed
    requires Fit(OneShot(m, wire, ending).frames, m.limit + 1)
    ensures Replays(q, OneShot(m, wire, ending), m.doneFrame, carry)
    decreases |wire|
  {
    CompletedStep(m, wire, ending);
    var r := OneShot(m, wire, ending);
    var span := Search(wire).value;
    var body := wire[..span.start];
    if React(m, body).Finish? {
      assert r.frames[0] == m.doneFrame;
      ReplayOfDone(q, m.doneFrame, carry);
    } else {
      var frame, usage := React(m, body).frame, React(m, body).usage;
      var later := OneShot(m, wire[span.end..], ending);
      FitTail(frame, later.frames, m.limit + 1);
      var frames, next := ForwardedResplits(codec, alias, q, m.doneFrame, codec.decode(body).value, carry, Flatten(later.frames));
      Replay(codec, alias, m, wire[span.end..], ending, q, next);
      ReplayOfFrame(q, m.doneFrame, carry, frame, usage, frames, next, later);
    }
  }

  // How a stream that completes starts
  lemma CompletedStep(m: Machine, wire: Bytes, ending: Ending)
    requires OneShot(m, wire, ending).outcome == Completed
    ensures Search(wire).Some?
    ensures var span := Search(wire).value;
            var action := React(m, wire[..span.start]);
            && !action.Abort?
            && (action.Finish? ==> OneShot(m, wire, ending) == StreamResult([m.doneFrame], Completed, None))
            && (action.Forward? ==>
                  && OneShot(m, wire, ending) == After([action.frame], action.usage, OneShot(m, wire[span.end..], ending))
                  && OneShot(m, wire[span.end..], ending).outcome == Completed)
  {
  }

  lemma FitTail(frame: Bytes, later: seq<Bytes>, size: nat)
    requires Fit([frame] + later, size)
    ensures |frame| <= size && Fit(later, size)
  {
    var all := [frame] + later;
    assert all[0] == frame && forall i :: 0 <= i < |later| ==> all[i + 1] == later[i];
  }

  lemma ForwardedResplits(codec: Codec, alias: string, q: Reader, done: Bytes, text: string, carry: Bytes, rest: Bytes)
    returns (frames: seq<Bytes>, next: Bytes)
    requires Lawful(codec) && Reads(codec, alias, q, done) && (carry == [] || carry == [LF])
    requires HandleText(codec, alias, text).Forward? && |HandleText(codec, alias, text).frame| - 1 <= q.limit
    ensures var Forward(frame, usage) := HandleText(codec, alias, text);
            Resplits(q, carry + frame, usage, frames, next, rest)
  {
    var lines, value := FrameSettles(codec, alias, text);
    var all := CarriedLines(codec, alias, lines, value, carry);
    frames, next := Resplit(codec, alias, q, done, all, value, carry + Framed(codec, Join(lines)), rest);
  }

  // A blank line in front changes nothing but the frame's first byte.
  lemma CarriedLines(codec: Codec, alias: string, lines: seq<string>, value: Option<Json>, carry: Bytes)
    returns (all: seq<string>)
    requires LawfulText(codec) && Settled(codec, alias, lines, value) && (carry == [] || carry == [LF])
    ensures Settled(codec, alias, all, value) && Framed(codec, Join(all)) == carry + Framed(codec, Join(lines))
  {
    all := if carry == [] then lines else [""] + lines;
    if carry == [] {
      assert carry + Framed(codec, Join(lines)) == Framed(codec, Join(lines));
    } else {
      FrameBlankStart(codec, lines);
      SettledBehindBlank(codec, alias, lines, value);
    }
  }

  lemma SettledBehindBlank(codec: Codec, alias: string, lines: seq<string>, value: Option<Json>)
    requires Settled(codec, alias, lines, value)
    ensures Settled(codec, alias, [""] + lines, value)
  {
    if value.None? { QuietBehindBlank(lines); }
  }

  lemma QuietBehindBlank(lines: seq<string>)
    ensures DataParts([""] + lines) == DataParts(lines)
  {
    DataPartsApart([""], lines);
    assert DataParts([""]) == [] && [] + DataParts(lines) == DataParts(lines);
  }

  lemma ReplayOfDone(q: Reader, done: Bytes, carry: Bytes)
    requires (carry == [] || carry == [LF]) && |done| - 1 <= q.limit
    requires ReadsDone(q, done, carry) && Whole(done)
    ensures Replays(q, StreamResult([done], Completed, None), done, carry)
  {
    var frames := [done];
    assert frames[..|frames| - 1] == [];
    OneFlat(done);
    assert carry + [] == carry && Settle(carry) == [];
    assert [] + done == done;
  }

  lemma ReplayOfFrame(q: Reader, done: Bytes, carry: Bytes, frame: Bytes, usage: Option<Usage>, frames: seq<Bytes>,
                      next: Bytes, later: StreamResult)
    requires (carry == [] || carry == [LF]) && |frame| - 1 <= q.limit && later.outcome == Completed
    requires Resplits(q, carry + frame, usage, frames, next, Flatten(later.frames))
    requires Replays(q, later, done, next)
    ensures Replays(q, After([frame], usage, later), done, carry)
  {
    var more := q.shot(next + Flatten(later.frames));
    FramesInFront(frame, later.frames);
    ShotOfFrame(q, carry, frame, usage, frames, next, later.frames);
    ReplayedFrame(done, carry, frame, usage, frames, next, later, more);
    FitInFront(frame, frames, later.frames, q.limit, carry, next);
  }

  lemma ShotOfFrame(q: Reader, carry: Bytes, frame: Bytes, usage: Option<Usage>, frames: seq<Bytes>, next: Bytes,
                    later: seq<Bytes>)
    requires Resplits(q, carry + frame, usage, frames, next, Flatten(later))
    ensures q.shot(carry + Flatten([frame] + later)) == After(frames, usage, q.shot(next + Flatten(later)))
    ensures |carry + frame| - 1 <= q.limit && q.safe(next + Flatten(later)) ==> q.safe(carry + Flatten([frame] + later))
  {
    assert ([frame] + later)[1..] == later;
    Regrouped(carry, frame, Flatten(later));
  }

  lemma Regrouped(a: Bytes, b: Bytes, c: Bytes)
    ensures a + b + c == a + (b + c)
  {
  }

  lemma ReplayedFrame(done: Bytes, carry: Bytes, frame: Bytes, usage: Option<Usage>, frames: seq<Bytes>, next: Bytes,
                      later: StreamResult, more: StreamResult)
    requires (carry == [] || carry == [LF]) && Parts(carry + frame, frames, next)
    requires later.frames != [] && Replayed(more, later, done, next)
    ensures Replayed(After(frames, usage, more), After([frame], usage, later), done, carry)
  {
    FramesInFront(frame, later.frames);
    BytesAgree(carry, frame, frames, next, BeforeLast(later.frames), more.frames, done);
    if carry == [] {
      assert carry + frame == frame;
      FramesAgree(frame, frames, more.frames, later.frames);
    }
  }

  lemma FramesInFront(frame: Bytes, later: seq<Bytes>)
    requires later != []
    ensures var all := [frame] + later;
            && Flatten(all) == frame + Flatten(later)
            && BeforeLast(all) == frame + BeforeLast(later)
            && all[|all| - 1] == later[|later| - 1]
  {
    var all := [frame] + later;
    assert all[1..] == later;
    var most := all[..|all| - 1];
    assert most[1..] == later[..|later| - 1];
  }

  lemma BytesAgree(carry: Bytes, frame: Bytes, frames: seq<Bytes>, next: Bytes, sent: Bytes, more: seq<Bytes>, done: Bytes)
    requires Flatten(frames) + next == carry + frame && !Odd(TrailingLFs(Flatten(frames)))
    requires Flatten(more) == Settle(next + sent) + done
    ensures Flatten(frames + more) == Settle(carry + (frame + sent)) + done
  {
    var parts, last := Flatten(frames), Settle(next + sent);
    calc {
      Flatten(frames + more);
    ==  { FlattenApart(frames, more); }
      parts + (last + done);
    ==  { Regrouped(parts, last, done); }
      parts + last + done;
    ==  { SettleBehind(parts, next + sent); }
      Settle(parts + (next + sent)) + done;
    ==  { Regrouped(parts, next, sent); Regrouped(carry, frame, sent); }
      Settle(carry + (frame + sent)) + done;
    }
  }

  lemma SettleBehind(a: Bytes, b: Bytes)
    requires !Odd(TrailingLFs(a))
    ensures Settle(a + b) == a + Settle(b)
  {
    TrailingAfterEven(a, b);
  }

  lemma FramesAgree(frame: Bytes, frames: seq<Bytes>, more: seq<Bytes>, later: seq<Bytes>)
    requires frames != [] && (if Whole(frame) then frames == [frame] else frames[0] != frame)
    requires Whole(frame) ==> (more == later <==> AllWhole(later))
    ensures frames + more == [frame] + later <==> AllWhole([frame] + later)
  {
    var all := [frame] + later;
    assert all[0] == frame && all[1..] == later;
    assert forall i :: 0 <= i < |later| ==> all[i + 1] == later[i];
    if Whole(frame) {
      assert (frames + more)[1..] == more;
    } else {
      assert (frames + more)[0] == frames[0];
    }
  }

  lemma FitInFront(frame: Bytes, frames: seq<Bytes>, later: seq<Bytes>, limit: nat, carry: Bytes, next: Bytes)
    requires Parts(carry + frame, frames, next) && |frame| - 1 <= limit && (carry == [] || carry == [LF])
    ensures CarriedFit([frame] + later, limit, carry) ==> |carry + frame| - 1 <= limit && CarriedFit(later, limit, next)
  {
    var all := [frame] + later;
    assert all[0] == frame && forall i :: 0 <= i < |later| ==> all[i + 1] == later[i];
    assert carry == [] ==> carry + frame == frame;
  }

  lemma {:induction false} FlattenApart(a: seq<Bytes>, b: seq<Bytes>)
    ensures Flatten(a + b) == Flatten(a) + Flatten(b)
  {
    if a == [] {
      assert a + b == b && [] + Flatten(b) == Flatten(b);
    } else {
      assert (a + b)[1..] == a[1..] + b;
      FlattenApart(a[1..], b);
    }
  }

  // ------------------------------------------------------------------
  // However the two streams are cut
  // ------------------------------------------------------------------

  // The second reading completes with the same usage.  Its bytes are the same exactly
  // when the number of LF bytes in front of the done frame is even; when it is odd, the
  // last of them is lost.  Its frames are the same exactly when every frame is one event.
  lemma ReplayTheorem(codec: Codec, alias: string, limit: nat, chunks: seq<Bytes>, ending: Ending,
                      output: seq<Bytes>, again: Ending)
    requires Lawful(codec)
    requires var once := Streamed(Rewriter(codec, alias, limit), [], chunks, ending);
             && once.outcome == Completed
             && (Fit(once.frames, limit) || (Fit(once.frames, limit + 1) && AllWhole(once.frames)))
             && Flatten(output) == Flatten(once.frames)
    ensures var m := Rewriter(codec, alias, limit);
            var once, twice := Streamed(m, [], chunks, ending), Streamed(m, [], output, again);
            && once.frames != [] && once.frames[|once.frames| - 1] == m.doneFrame
            && twice.outcome == Completed && twice.usage == once.usage
            && (Flatten(twice.frames) == Flatten(once.frames) <==> !Odd(TrailingLFs(BeforeLast(once.frames))))
            && Flatten(twice.frames) == Settle(BeforeLast(once.frames)) + m.doneFrame
            && (Odd(TrailingLFs(BeforeLast(once.frames))) ==>
                  Flatten(once.frames) == Settle(BeforeLast(once.frames)) + [LF] + m.doneFrame)
            && (twice.frames == once.frames <==> AllWhole(once.frames))
  {
    var m := Rewriter(codec, alias, limit);
    var once := Streamed(m, [], chunks, ending);
    FitMore(once.frames, limit);
    CompletedReplays(codec, alias, m, chunks, ending, once, again);
    CutAgain(m, once, output, again);
  }

  lemma FitMore(frames: seq<Bytes>, size: nat)
    ensures Fit(frames, size) ==> Fit(frames, size + 1)
  {
  }

  // The second reading may be cut in any way.
  lemma CutAgain(m: Machine, once: StreamResult, output: seq<Bytes>, again: Ending)
    requires Replays(ReaderOf(m, again), once, m.doneFrame, []) && CarriedFit(once.frames, m.limit, [])
    requires Flatten(output) == Flatten(once.frames)
    ensures var twice := Streamed(m, [], output, again);
            && twice.outcome == Completed && twice.usage == once.usage
            && (Flatten(twice.frames) == Flatten(once.frames) <==> !Odd(TrailingLFs(BeforeLast(once.frames))))
            && Flatten(twice.frames) == Settle(BeforeLast(once.frames)) + m.doneFrame
            && (Odd(TrailingLFs(BeforeLast(once.frames))) ==>
                  Flatten(once.frames) == Settle(BeforeLast(once.frames)) + [LF] + m.doneFrame)
            && (twice.frames == once.frames <==> AllWhole(once.frames))
  {
    assert [] + Flatten(once.frames) == Flatten(once.frames) && [] + BeforeLast(once.frames) == BeforeLast(once.frames);
    CutsDoNotMatter(m, [], output, again);
    LostByte(once.frames, Streamed(m, [], output, again).frames, m.doneFrame);
  }

  lemma CompletedReplays(codec: Codec, alias: string, m: Machine, chunks: seq<Bytes>, ending: Ending, once: StreamResult,
                         again: Ending)
    requires Lawful(codec) && m == Rewriter(codec, alias, m.limit) && once == Streamed(m, [], chunks, ending)
    requires once.outcome == Completed && Fit(once.frames, m.limit + 1)
    ensures Replays(ReaderOf(m, again), once, m.doneFrame, [])
  {
    CompletedAgrees(m, [], chunks, ending);
    RewriterReads(codec, alias, m, again);
    Replay(codec, alias, m, [] + Flatten(chunks), ending, ReaderOf(m, again), []);
  }

  lemma LostByte(once: seq<Bytes>, twice: seq<Bytes>, done: Bytes)
    requires once != [] && once[|once| - 1] == done
    requires Flatten(twice) == Settle(BeforeLast(once)) + done
    ensures Flatten(twice) == Flatten(once) <==> !Odd(TrailingLFs(BeforeLast(once)))
    ensures Odd(TrailingLFs(BeforeLast(once))) ==> Flatten(once) == Settle(BeforeLast(once)) + [LF] + done
  {
    LastFrame(once);
    SettleLoses(BeforeLast(once));
    LengthDiffers(Settle(BeforeLast(once)), done);
  }

  lemma SettleLoses(sent: Bytes)
    ensures sent == if Odd(TrailingLFs(sent)) then Settle(sent) + [LF] else Settle(sent)
  {
  }

  lemma LengthDiffers(before: Bytes, done: Bytes)
    ensures before + done != before + [LF] + done
  {
    assert |before + done| + 1 == |before + [LF] + done|;
  }

  lemma OneFlat(frame: Bytes)
    ensures Flatten([frame]) == frame
  {
    var one := [frame];
    assert |one[1..]| == 0 && Flatten(one[1..]) == [];
    assert frame + [] == frame;
  }

  lemma LastFrame(frames: seq<Bytes>)
    requires frames != []
    ensures Flatten(frames) == BeforeLast(frames) + frames[|frames| - 1]
  {
    var most, last := frames[..|frames| - 1], frames[|frames| - 1];
    assert frames == most + [last];
    FlattenApart(most, [last]);
    OneFlat(last);
  }
}
