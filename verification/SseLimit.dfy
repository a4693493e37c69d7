/**
 The size limit is checked on whole events and on unfinished buffers, so an event that
 just fits can be lost to an unlucky cut.
 */
module SseLimit {
  import opened Wrappers
  import opened EventStream
  import opened SseStream
  import opened SseRewriter
  import opened SseLines
  import opened SseReplay

  // A line of exactly the permitted size, a comment for example, is forwarded when it
  // arrives whole, and ends the stream when a chunk ends inside its delimiter.
  lemma LineAtTheLimit(codec: Codec, alias: string, line: string, ending: Ending)
    requires Lawful(codec) && OneLine(line) && line != "" && !IsData(line)
    ensures var limit := |codec.encode(line)|;
            var m, wire := Rewriter(codec, alias, limit), Framed(codec, line);
            && |wire| == limit + 2
            && OneShot(m, wire, ending) == After([wire], None, Ended(m, ending))
            && Streamed(m, [], [wire[..limit + 1], wire[limit + 1..]], ending) == Interrupt(m)
            && !CutSafe(m, wire)
  {
    var limit := |codec.encode(line)|;
    var m, wire := Rewriter(codec, alias, limit), Framed(codec, line);
    LineHandled(codec, alias, line);
    FramedBytes(codec, line);
    ReadFrame(codec, alias, limit, line, []);
    assert wire + [] == wire;
    EventAtTheLimit(m, wire, ending);
  }

  lemma EventAtTheLimit(m: Machine, wire: Bytes, ending: Ending)
    requires |wire| == m.limit + 2 && Search(wire) == Some(Span(m.limit, m.limit + 2))
    requires React(m, wire[..m.limit]) == Forward(wire, None)
    ensures OneShot(m, wire, ending) == After([wire], None, Ended(m, ending)) && !CutSafe(m, wire)
    ensures Streamed(m, [], [wire[..m.limit + 1], wire[m.limit + 1..]], ending) == Interrupt(m)
  {
    assert wire[m.limit + 2..] == [];
    Overflows(m, wire, m.limit + 1, ending);
  }

  lemma LineHandled(codec: Codec, alias: string, line: string)
    requires LawfulText(codec) && OneLine(line) && line != "" && !IsData(line)
    ensures HandleText(codec, alias, line) == Forward(Framed(codec, line), None)
    ensures Calm(codec.encode(line))
  {
    EncodeOneLine(codec, line);
    SplitLast(line);
    assert [line][1..] == [] && DataParts([line]) == [];
  }

  // A first chunk over the limit without a delimiter is fatal, whatever follows it.
  lemma Overflows(m: Machine, wire: Bytes, n: nat, ending: Ending)
    requires n <= |wire| && n > m.limit && Search(wire).Some? && n < Search(wire).value.end
    ensures Streamed(m, [], [wire[..n], wire[n..]], ending) == Interrupt(m)
  {
    SearchInPrefix(wire, n);
    TwoChunks(m, wire[..n], wire[n..], ending);
    assert [] + Interrupt(m).frames == Interrupt(m).frames;
  }
}
