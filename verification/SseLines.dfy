/**
 Lines of an event: they survive being joined, framed, sent as bytes and split
 again, as far as no blank line comes between them.
 */
module SseLines {
  import opened Wrappers
  import opened EventStream
  import opened SseRewriter

  // ------------------------------------------------------------------
  // Lines survive being joined, framed and split again
  // ------------------------------------------------------------------

  // Only the first line may be blank, and not when it is the only one.
  ghost predicate Tidy(lines: seq<string>) {
    && AllOneLine(lines)
    && (forall i :: 0 < i < |lines| ==> lines[i] != "")
    && (|lines| == 1 ==> lines[0] != "")
  }

  lemma SplitAt(line: string, separator: char, rest: string)
    requires OneLine(line) && IsSeparator(separator) && separator != '\r'
    ensures SplitLines(line + [separator] + rest) == [line] + SplitLines(rest)
  {
    SplitAtBreak(line, [separator], rest);
  }

  lemma SplitLast(line: string)
    requires OneLine(line) && line != ""
    ensures SplitLines(line) == [line]
  {
    SplitWithoutBreak(line);
  }

  lemma {:induction false} SplitJoin(lines: seq<string>)
    requires Tidy(lines)
    ensures SplitLines(Join(lines)) == lines
  {
    if |lines| == 1 {
      SplitLast(lines[0]);
    } else if |lines| > 1 {
      var rest := lines[1..];
      SplitJoin(rest);
      SplitAt(lines[0], '\n', Join(rest));
      assert Join(lines) == lines[0] + ['\n'] + Join(rest);
      assert lines == [lines[0]] + rest;
    }
  }

  // Bytes in which no event delimiter can start, whatever delimiter follows them.
  ghost predicate Calm(bytes: Bytes) {
    && CR !in bytes
    && (forall i :: 0 <= i < |bytes| && bytes[i] == LF ==> i + 1 < |bytes| && bytes[i + 1] != LF)
  }

  lemma SearchAfterCalm(bytes: Bytes, more: Bytes)
    requires Calm(bytes)
    ensures Search(bytes + [LF, LF] + more) == Some(Span(|bytes|, |bytes| + 2))
  {
    var wire := bytes + [LF, LF] + more;
    forall i | 0 <= i < |bytes|
      ensures MatchAt(wire, i).None?
    {
      assert wire[i] == bytes[i];
      if wire[i] == LF { assert wire[i + 1] == bytes[i + 1]; }
    }
    assert wire[|bytes|] == LF && wire[|bytes| + 1] == LF;
    SearchIs(wire, Span(|bytes|, |bytes| + 2));
  }

  lemma EncodeEmpty(codec: Codec)
    requires LawfulText(codec)
    ensures codec.encode("") == []
  {
    assert codec.encode("" + "") == codec.encode("") + codec.encode("");
  }

  lemma {:induction false} EncodeOneLine(codec: Codec, text: string)
    requires LawfulText(codec) && (OneLine(text) || ('\n' !in text && '\r' !in text))
    ensures LF !in codec.encode(text) && CR !in codec.encode(text)
    ensures text != "" ==> codec.encode(text) != []
  {
    if text == "" {
      EncodeEmpty(codec);
    } else {
      assert text == [text[0]] + text[1..];
      assert IsSeparator('\n') && IsSeparator('\r');
      EncodeOneLine(codec, text[1..]);
    }
  }

  lemma {:induction false} EncodeTidy(codec: Codec, lines: seq<string>)
    requires LawfulText(codec) && Tidy(lines)
    ensures var bytes := codec.encode(Join(lines));
            Calm(bytes) && (lines != [] && lines[0] != "" ==> bytes != [] && bytes[0] != LF)
  {
    if lines == [] {
      EncodeEmpty(codec);
    } else {
      EncodeOneLine(codec, lines[0]);
      if |lines| > 1 {
        EncodeTidy(codec, lines[1..]);
        var first, rest := codec.encode(lines[0]), codec.encode(Join(lines[1..]));
        assert codec.encode(Join(lines)) == first + [LF] + rest by {
          assert Join(lines) == (lines[0] + "\n") + Join(lines[1..]);
        }
      }
    }
  }

  lemma FramedBytes(codec: Codec, text: string)
    requires LawfulText(codec)
    ensures Framed(codec, text) == codec.encode(text) + [LF, LF]
  {
    assert "\n\n" == "\n" + "\n";
    assert codec.encode("\n" + "\n") == [LF, LF];
  }

  // ------------------------------------------------------------------
  // Frames that hold blank lines
  // ------------------------------------------------------------------

  lemma {:induction false} JoinApart(a: seq<string>, b: seq<string>)
    requires a != [] && b != []
    ensures Join(a + b) == Join(a) + "\n" + Join(b)
  {
    if |a| == 1 {
      assert (a + b)[1..] == b;
    } else {
      assert (a + b)[1..] == a[1..] + b;
      JoinApart(a[1..], b);
    }
  }

  // A blank line between lines makes two frames of one.
  lemma FrameApart(codec: Codec, a: seq<string>, b: seq<string>)
    requires LawfulText(codec) && a != [] && b != []
    ensures Framed(codec, Join(a + [""] + b)) == Framed(codec, Join(a)) + Framed(codec, Join(b))
  {
    JoinApart(a, [""] + b);
    JoinApart([""], b);
    assert a + [""] + b == a + ([""] + b);
    var x, y := Join(a), Join(b);
    FramedBytes(codec, x);
    FramedBytes(codec, y);
    FramedBytes(codec, x + "\n" + ("\n" + y));
    assert "" + "\n" + y == "\n" + y;
    assert codec.encode(x + "\n" + ("\n" + y)) == codec.encode(x) + [LF] + ([LF] + codec.encode(y));
    assert codec.encode(x) + [LF] + ([LF] + codec.encode(y)) + [LF, LF]
        == (codec.encode(x) + [LF, LF]) + (codec.encode(y) + [LF, LF]);
  }

  // A blank line at the end of a frame is one byte too many.
  lemma FrameBlankEnd(codec: Codec, a: seq<string>)
    requires LawfulText(codec) && a != []
    ensures Framed(codec, Join(a + [""])) == Framed(codec, Join(a)) + [LF]
  {
    JoinApart(a, [""]);
    var x := Join(a);
    assert x + "\n" + "" == x + "\n";
    FramedBytes(codec, x);
    FramedBytes(codec, x + "\n");
  }

  lemma FrameBlankStart(codec: Codec, b: seq<string>)
    requires LawfulText(codec) && b != []
    ensures Framed(codec, Join([""] + b)) == [LF] + Framed(codec, Join(b))
  {
    JoinApart([""], b);
    var y := Join(b);
    assert "" + "\n" + y == "\n" + y;
    FramedBytes(codec, y);
    FramedBytes(codec, "\n" + y);
  }

  // ------------------------------------------------------------------
  // LF bytes at the end
  // ------------------------------------------------------------------

  function TrailingLFs(bytes: Bytes): (n: nat)
    ensures n <= |bytes|
    ensures forall i :: |bytes| - n <= i < |bytes| ==> bytes[i] == LF
    ensures n < |bytes| ==> bytes[|bytes| - n - 1] != LF
  {
    if bytes == [] || bytes[|bytes| - 1] != LF then 0 else 1 + TrailingLFs(bytes[..|bytes| - 1])
  }

  predicate Odd(n: nat) {
    n % 2 == 1
  }

  lemma {:induction false} TrailingApart(a: Bytes, b: Bytes)
    ensures TrailingLFs(a + b) == if TrailingLFs(b) == |b| then TrailingLFs(a) + |b| else TrailingLFs(b)
    decreases |b|
  {
    if b == [] {
      assert a + b == a;
    } else {
      assert (a + b)[..|a + b| - 1] == a + b[..|b| - 1];
      if b[|b| - 1] == LF { TrailingApart(a, b[..|b| - 1]); }
    }
  }

  lemma TrailingAfterEven(a: Bytes, b: Bytes)
    requires !Odd(TrailingLFs(a))
    ensures Odd(TrailingLFs(a + b)) == Odd(TrailingLFs(b))
  {
    TrailingApart(a, b);
  }

  lemma FrameEndsEven(codec: Codec, text: string)
    requires LawfulText(codec) && Calm(codec.encode(text))
    ensures TrailingLFs(Framed(codec, text)) == 2
  {
    FramedBytes(codec, text);
    var bytes := codec.encode(text);
    var frame := Framed(codec, text);
    assert frame == bytes + [LF, LF];
    assert bytes != [] ==> frame[|bytes| - 1] == bytes[|bytes| - 1] != LF;
    assert frame[|bytes|] == LF && frame[|bytes| + 1] == LF;
  }
}
