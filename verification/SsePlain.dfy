/**
 Which streams survive a second rewriting: those whose only line separators are LF and
 CRLF, and not those that use some of the other separators the line splitting knows.
 */
module SsePlain {
  import opened Wrappers
  import opened EventStream
  import opened SseStream
  import opened SseRewriter
  import opened SseLines
  import opened SseReplay

  // ------------------------------------------------------------------
  // Tidy events make whole frames
  // ------------------------------------------------------------------

  // Every event the stream processes splits into tidy lines.
  ghost predicate TidyEvents(codec: Codec, m: Machine, wire: Bytes)
    decreases |wire|
  {
    match Search(wire)
    case None => true
    case Some(span) =>
      && (codec.decode(wire[..span.start]).Some? ==> Tidy(SplitLines(codec.decode(wire[..span.start]).value)))
      && (React(m, wire[..span.start]).Forward? ==> TidyEvents(codec, m, wire[span.end..]))
  }

  lemma AllWholeBehind(frame: Bytes, later: seq<Bytes>)
    requires Whole(frame) && AllWhole(later)
    ensures AllWhole([frame] + later)
  {
  }

  lemma {:induction false} TidyIsWhole(codec: Codec, alias: string, m: Machine, wire: Bytes, ending: Ending)
    requires Lawful(codec) && m == Rewriter(codec, alias, m.limit)
    requires TidyEvents(codec, m, wire) && OneShot(m, wire, ending).outcome == Completed
    ensures AllWhole(OneShot(m, wire, ending).frames)
    decreases |wire|
  {
    CompletedStep(m, wire, ending);
    var span := Search(wire).value;
    var body := wire[..span.start];
    if React(m, body).Finish? {
      DoneReplays(codec, alias);
      CalmIsWhole(codec, "data: " + DONE);
    } else {
      var again := ReplayEvent(codec, alias, codec.decode(body).value);
      CalmIsWhole(codec, again);
      var later := OneShot(m, wire[span.end..], ending);
      TidyIsWhole(codec, alias, m, wire[span.end..], ending);
      AllWholeBehind(React(m, body).frame, later.frames);
    }
  }

  // ------------------------------------------------------------------
  // Wires whose only line separators are LF and CRLF are tidy
  // ------------------------------------------------------------------

  ghost predicate LineEndAt(text: string, i: nat) {
    i < |text| && (text[i] == '\n' || (text[i] == '\r' && i + 1 < |text| && text[i + 1] == '\n'))
  }

  ghost predicate Plain(text: string) {
    forall i :: 0 <= i < |text| && IsSeparator(text[i]) ==> LineEndAt(text, i)
  }

  // No line end is followed by another or by the end of the text.
  ghost predicate Dense(text: string) {
    forall i :: 0 <= i < |text| && text[i] == '\n' ==> i + 1 < |text| && !LineEndAt(text, i + 1)
  }

  ghost predicate PlainEvents(codec: Codec, m: Machine, wire: Bytes)
    decreases |wire|
  {
    match Search(wire)
    case None => true
    case Some(span) =>
      && (codec.decode(wire[..span.start]).Some? ==> Plain(codec.decode(wire[..span.start]).value))
      && (React(m, wire[..span.start]).Forward? ==> PlainEvents(codec, m, wire[span.end..]))
  }

  // What follows a line end is plain and dense again, and does not start with another.
  lemma AfterLineEnd(text: string, next: nat)
    requires Plain(text) && Dense(text) && 0 < next <= |text| && text[next - 1] == '\n'
    ensures var rest := text[next..];
            Plain(rest) && Dense(rest) && rest != "" && !LineEndAt(rest, 0)
  {
    var rest := text[next..];
    assert forall i :: 0 <= i < |rest| ==> rest[i] == text[next + i];
    assert forall i :: 0 <= i <= |rest| ==> LineEndAt(rest, i) == LineEndAt(text, next + i);
  }

  // Where the line after the first one starts
  function NextLine(text: string): (next: nat)
    requires FirstSeparator(text) < |text|
    ensures FirstSeparator(text) < next <= |text|
  {
    FirstSeparator(text) + (if "\r\n" <= text[FirstSeparator(text)..] then 2 else 1)
  }

  lemma SplitStep(text: string)
    requires FirstSeparator(text) < |text|
    ensures SplitLines(text) == [text[..FirstSeparator(text)]] + SplitLines(text[NextLine(text)..])
  {
  }

  lemma PlainNext(text: string)
    requires Plain(text) && FirstSeparator(text) < |text|
    ensures LineEndAt(text, FirstSeparator(text)) && text[NextLine(text) - 1] == '\n'
  {
    var k := FirstSeparator(text);
    assert LineEndAt(text, k);
    if text[k] == '\r' {
      assert text[k..][0] == '\r' && text[k..][1] == '\n';
    } else {
      assert text[k..][0] == '\n';
    }
  }

  lemma {:induction false} TidySplit(text: string)
    requires Plain(text) && Dense(text)
    ensures Tidy(SplitLines(text))
    ensures text != "" && !LineEndAt(text, 0) ==>
              SplitLines(text) != [] && forall i :: 0 <= i < |SplitLines(text)| ==> SplitLines(text)[i] != ""
    decreases |text|
  {
    if FirstSeparator(text) == |text| {
      assert SplitLines(text) == if text == "" then [] else [text];
    } else {
      PlainNext(text);
      AfterLineEnd(text, NextLine(text));
      TidySplit(text[NextLine(text)..]);
      SplitStep(text);
    }
  }

  lemma EncodeLineEnds(codec: Codec, before: string, part: string, after: string)
    requires LawfulText(codec) && part in {"\n", "\r\n"}
    ensures codec.encode(before + ("\n" + (part + after)))
         == codec.encode(before) + ([LF] + ((if part == "\n" then [LF] else [CR, LF]) + codec.encode(after)))
  {
    assert "\r\n" == "\r" + "\n";
  }

  // A line end after a line end, or at the end of the text, would start a delimiter.
  lemma BlankIsDelimiter(codec: Codec, wire: Bytes, start: nat, text: string, i: nat)
    requires LawfulText(codec) && start <= |wire| && MatchAt(wire, start).Some?
    requires codec.encode(text) == wire[..start]
    requires i < |text| && text[i] == '\n'
    requires i + 1 == |text| || LineEndAt(text, i + 1)
    ensures |codec.encode(text[..i])| < start
    ensures MatchAt(wire, |codec.encode(text[..i])|).Some?
  {
    var body := wire[..start];
    var before := text[..i];
    var p := |codec.encode(before)|;
    if i + 1 == |text| {
      assert text == before + "\n";
      assert body[p] == LF;
    } else {
      var part := if text[i + 1] == '\n' then "\n" else "\r\n";
      assert text == before + ("\n" + (part + text[i + 1 + |part|..]));
      EncodeLineEnds(codec, before, part, text[i + 1 + |part|..]);
      assert body[p] == LF && body[p + 1] == if part == "\n" then LF else CR;
    }
  }

  // The text before the leftmost delimiter holds no delimiter of its own.
  lemma BodyIsDense(codec: Codec, wire: Bytes, text: string)
    requires LawfulText(codec) && Search(wire).Some?
    requires codec.decode(wire[..Search(wire).value.start]) == Some(text)
    ensures Dense(text)
  {
    SearchIsLeftmost(wire, 0);
    assert codec.encode(text) == wire[..Search(wire).value.start];
    forall i | 0 <= i < |text| && text[i] == '\n'
      ensures i + 1 < |text| && !LineEndAt(text, i + 1)
    {
      if i + 1 == |text| || LineEndAt(text, i + 1) {
        BlankIsDelimiter(codec, wire, Search(wire).value.start, text, i);
      }
    }
  }

  lemma {:induction false} PlainIsTidy(codec: Codec, m: Machine, wire: Bytes)
    requires LawfulText(codec) && PlainEvents(codec, m, wire)
    ensures TidyEvents(codec, m, wire)
    decreases |wire|
  {
    if Search(wire).None? {
    } else {
      var span := Search(wire).value;
      if codec.decode(wire[..span.start]).Some? {
        var text := codec.decode(wire[..span.start]).value;
        BodyIsDense(codec, wire, text);
        TidySplit(text);
      }
      if React(m, wire[..span.start]).Forward? {
        PlainIsTidy(codec, m, wire[span.end..]);
      }
    }
  }

  // With no other line separators than these, rewriting is idempotent, frame for frame.
  lemma PlainReplays(codec: Codec, alias: string, limit: nat, chunks: seq<Bytes>, ending: Ending,
                     output: seq<Bytes>, again: Ending)
    requires Lawful(codec)
    requires var m := Rewriter(codec, alias, limit);
             var once := Streamed(m, [], chunks, ending);
             && PlainEvents(codec, m, Flatten(chunks))
             && once.outcome == Completed && Fit(once.frames, limit + 1)
             && Flatten(output) == Flatten(once.frames)
    ensures var m := Rewriter(codec, alias, limit);
            Streamed(m, [], output, again) == Streamed(m, [], chunks, ending)
  {
    var m := Rewriter(codec, alias, limit);
    CompletedAgrees(m, [], chunks, ending);
    assert [] + Flatten(chunks) == Flatten(chunks);
    PlainIsTidy(codec, m, Flatten(chunks));
    TidyIsWhole(codec, alias, m, Flatten(chunks), ending);
    ReplayTheorem(codec, alias, limit, chunks, ending, output, again);
  }

  // ------------------------------------------------------------------
  // Other separators can break it
  // ------------------------------------------------------------------

  const SEPARATOR := '\U{2028}'

  // A line followed by two line separators U+2028
  function Blanked(line: string): string {
    line + [SEPARATOR] + [SEPARATOR]
  }

  lemma BlankedSplits(line: string)
    requires OneLine(line)
    ensures SplitLines(Blanked(line)) == [line, ""]
  {
    assert Blanked(line) == line + [SEPARATOR] + ("" + [SEPARATOR] + "");
    SplitAt(line, SEPARATOR, "" + [SEPARATOR] + "");
    SplitAt("", SEPARATOR, "");
  }

  lemma BlankedHandled(codec: Codec, alias: string, line: string)
    requires OneLine(line) && line != "" && !IsData(line)
    ensures HandleText(codec, alias, Blanked(line)) == Forward(Framed(codec, line + "\n"), None)
    ensures HandleText(codec, alias, line) == Forward(Framed(codec, line), None)
  {
    BlankedSplits(line);
    SplitLast(line);
    assert [line, ""][1..] == [""] && [""][1..] == [] && [line][1..] == [];
    assert DataParts([""]) == [] && DataParts([line]) == [] && DataParts([line, ""]) == [];
    assert Join([line, ""]) == line + "\n" + "" == line + "\n";
  }

  lemma BlankedCalm(codec: Codec, line: string)
    requires LawfulText(codec) && OneLine(line)
    ensures Calm(codec.encode(Blanked(line))) && Calm(codec.encode(line))
  {
    assert IsSeparator('\n') && IsSeparator('\r');
    EncodeOneLine(codec, Blanked(line));
    EncodeOneLine(codec, line);
  }

  // The trailing blank line of such an event is lost when the output is rewritten again:
  // the first pass writes it, and the second reads it as the start of the next event.
  lemma TrailingBlankIsLost(codec: Codec, alias: string, limit: nat, line: string, ending: Ending)
    requires Lawful(codec) && OneLine(line) && line != "" && !IsData(line)
    requires |Framed(codec, Blanked(line))| - 2 <= limit && |Framed(codec, line)| <= limit
    requires |Framed(codec, "data: " + DONE)| - 1 <= limit
    ensures var m := Rewriter(codec, alias, limit);
            var once := OneShot(m, Framed(codec, Blanked(line)) + m.doneFrame, ending);
            && once == StreamResult([Framed(codec, line + "\n"), m.doneFrame], Completed, None)
            && Flatten(once.frames) == Framed(codec, line) + [LF] + m.doneFrame
            && Flatten(OneShot(m, Flatten(once.frames), ending).frames) == Framed(codec, line) + m.doneFrame
  {
    var m := Rewriter(codec, alias, limit);
    var wire := Framed(codec, Blanked(line)) + m.doneFrame;
    BlankedForwarded(codec, alias, m, line, ending);
    BlankIsOdd(codec, line);
    LastLFIsLost(codec, alias, m, wire, Framed(codec, line), ending);
  }

  lemma LastLFIsLost(codec: Codec, alias: string, m: Machine, wire: Bytes, frame: Bytes, ending: Ending)
    requires Lawful(codec) && m == Rewriter(codec, alias, m.limit)
    requires OneShot(m, wire, ending) == StreamResult([frame + [LF], m.doneFrame], Completed, None)
    requires !Odd(TrailingLFs(frame)) && |frame| <= m.limit && |m.doneFrame| - 1 <= m.limit
    ensures var once := OneShot(m, wire, ending);
            && Flatten(once.frames) == frame + [LF] + m.doneFrame
            && Flatten(OneShot(m, Flatten(once.frames), ending).frames) == frame + m.doneFrame
  {
    var once := OneShot(m, wire, ending);
    RewriterReads(codec, alias, m, ending);
    Replay(codec, alias, m, wire, ending, ReaderOf(m, ending), []);
    LosesLast(ReaderOf(m, ending), once, m.doneFrame, frame);
  }

  lemma LosesLast(q: Reader, once: StreamResult, done: Bytes, frame: Bytes)
    requires once.frames == [frame + [LF], done] && !Odd(TrailingLFs(frame)) && Replays(q, once, done, [])
    ensures Flatten(once.frames) == frame + [LF] + done
    ensures Flatten(q.shot(Flatten(once.frames)).frames) == frame + done
  {
    assert [] + Flatten(once.frames) == Flatten(once.frames);
    SentBefore(frame, once.frames, done);
  }

  lemma BlankIsOdd(codec: Codec, line: string)
    requires LawfulText(codec) && OneLine(line)
    ensures Framed(codec, line + "\n") == Framed(codec, line) + [LF]
    ensures !Odd(TrailingLFs(Framed(codec, line)))
  {
    FrameBlankEnd(codec, [line]);
    assert [line] + [""] == [line, ""] && Join([line, ""]) == line + "\n";
    BlankedCalm(codec, line);
    FrameEndsEven(codec, line);
  }

  lemma SentBefore(frame: Bytes, frames: seq<Bytes>, done: Bytes)
    requires frames == [frame + [LF], done] && !Odd(TrailingLFs(frame))
    ensures Flatten(frames) == frame + [LF] + done
    ensures Settle([] + BeforeLast(frames)) == frame
  {
    LastFrame(frames);
    assert frames[..1] == [frame + [LF]];
    OneFlat(frame + [LF]);
    SettleBehind(frame, [LF]);
    assert [] + (frame + [LF]) == frame + [LF];
    assert Settle([LF]) == [] && frame + [] == frame;
  }

  lemma BlankedForwarded(codec: Codec, alias: string, m: Machine, line: string, ending: Ending)
    requires Lawful(codec) && m == Rewriter(codec, alias, m.limit) && OneLine(line) && line != "" && !IsData(line)
    requires |Framed(codec, Blanked(line))| - 2 <= m.limit && |m.doneFrame| - 1 <= m.limit
    ensures OneShot(m, Framed(codec, Blanked(line)) + m.doneFrame, ending)
            == StreamResult([Framed(codec, line + "\n"), m.doneFrame], Completed, None)
  {
    BlankedHandled(codec, alias, line);
    BlankedCalm(codec, line);
    ForwardThenDone(codec, alias, m, Blanked(line), Framed(codec, line + "\n"), ending);
  }

  lemma ForwardThenDone(codec: Codec, alias: string, m: Machine, text: string, out: Bytes, ending: Ending)
    requires Lawful(codec) && m == Rewriter(codec, alias, m.limit) && |m.doneFrame| - 1 <= m.limit
    requires Calm(codec.encode(text)) && |Framed(codec, text)| - 2 <= m.limit
    requires HandleText(codec, alias, text) == Forward(out, None)
    ensures OneShot(m, Framed(codec, text) + m.doneFrame, ending) == StreamResult([out, m.doneFrame], Completed, None)
  {
    ReadDone(codec, alias, m, [], ending);
    ReadText(codec, alias, m, text, out, None, m.doneFrame, ending);
    OneThenDone(m.doneFrame, out);
  }

  lemma OneThenDone(done: Bytes, out: Bytes)
    ensures [] + done == done
    ensures After([out], None, StreamResult([done], Completed, None)) == StreamResult([out, done], Completed, None)
  {
  }
}
