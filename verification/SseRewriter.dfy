/**
 What the streamed body does to one event: the model label becomes the alias the
 client asked for, provider usage is noted, and everything else passes through.
 */
module SseRewriter {
  import opened Wrappers
  import opened JsonValues
  import opened EventStream
  import opened SseStream

  // bytes.decode (strict), str.encode, json.loads and compact json.dumps; `values` are the
  // values that loading can return
  datatype Codec = Codec(
    decode: Bytes -> Option<string>,
    encode: string -> Bytes,
    load: string -> Option<Json>,
    dump: Json -> string,
    values: Json -> bool)

  const DONE := "[DONE]"
  const CODE := "upstream_stream_interrupted"
  const INTERRUPTED :=
    "{\"error\":" + ("{\"message\":\"" + CODE + "\"" + (",\"type\":\"gateway_error\"" + (",\"code\":\"" + CODE + "\"" + "}"))) + "}"
  const INTERRUPTED_VALUE :=
    Obj([Field("error", Obj([Field("message", Str(CODE)), Field("type", Str("gateway_error")), Field("code", Str(CODE))]))])

  function Framed(codec: Codec, text: string): Bytes {
    codec.encode(text + "\n\n")
  }

  // ------------------------------------------------------------------
  // Lines
  // ------------------------------------------------------------------

  // The boundaries of str.splitlines.
  predicate IsSeparator(c: char) {
    c in {'\n', '\r', '\U{0B}', '\U{0C}', '\U{1C}', '\U{1D}', '\U{1E}', '\U{85}', '\U{2028}', '\U{2029}'}
  }

  predicate OneLine(text: string) {
    forall i :: 0 <= i < |text| ==> !IsSeparator(text[i])
  }

  predicate AllOneLine(lines: seq<string>) {
    forall i :: 0 <= i < |lines| ==> OneLine(lines[i])
  }

  function FirstSeparator(text: string): (k: nat)
    ensures k <= |text|
    ensures k < |text| ==> IsSeparator(text[k])
    ensures OneLine(text[..k])
  {
    if text == "" || IsSeparator(text[0]) then 0 else 1 + FirstSeparator(text[1..])
  }

  // str.splitlines: CRLF is one boundary, and a boundary at the end opens no new line.
  function SplitLines(text: string): (lines: seq<string>)
    ensures AllOneLine(lines)
    decreases |text|
  {
    var k := FirstSeparator(text);
    if text == "" then []
    else if k == |text| then [text]
    else [text[..k]] + SplitLines(text[k + (if "\r\n" <= text[k..] then 2 else 1)..])
  }

  function Join(lines: seq<string>): string {
    if |lines| == 0 then ""
    else if |lines| == 1 then lines[0]
    else lines[0] + "\n" + Join(lines[1..])
  }

  predicate IsData(line: string) {
    "data:" <= line
  }

  function StripSpaces(s: string): string {
    if s != "" && s[0] == ' ' then StripSpaces(s[1..]) else s
  }

  function DataParts(lines: seq<string>): seq<string> {
    if lines == [] then []
    else (if IsData(lines[0]) then [StripSpaces(lines[0][5..])] else []) + DataParts(lines[1..])
  }

  function OtherLines(lines: seq<string>): (others: seq<string>)
    ensures AllOneLine(lines) ==> AllOneLine(others)
  {
    if lines == [] then []
    else (if IsData(lines[0]) then [] else [lines[0]]) + OtherLines(lines[1..])
  }

  // ------------------------------------------------------------------
  // One event
  // ------------------------------------------------------------------

  const USAGE_KEYS := {"prompt_tokens", "completion_tokens", "total_tokens"}

  function UsageFields(fields: seq<Field>): Usage {
    if fields == [] then map[]
    else
      var rest := UsageFields(fields[1..]);
      var Field(key, value) := fields[0];
      if key in USAGE_KEYS && value.Int? && value.n >= 0 then rest[key := value.n] else rest
  }

  function UsageOf(value: Option<Json>): Option<Usage> {
    if value.Some? && value.value.Obj? then Some(UsageFields(value.value.fields)) else None
  }

  // The rewritten value of an event, or None when the event must end the stream.
  function Rewritten(alias: string, value: Option<Json>): Option<Json> {
    if value.None? || !value.value.Obj? || HasKey(value.value, "error") then None
    else Some(Obj(Replace(value.value.fields, "model", Str(alias))))
  }

  function HandleText(codec: Codec, alias: string, text: string): Action {
    var lines := SplitLines(text);
    var data := Join(DataParts(lines));
    if data == DONE then Finish
    else if data == "" then Forward(Framed(codec, Join(lines)), None)
    else
      match Rewritten(alias, codec.load(data))
      case None => Abort
      case Some(value) =>
        Forward(Framed(codec, Join(OtherLines(lines) + ["data: " + codec.dump(value)])),
                UsageOf(Get(value, "usage")))
  }

  function Handle(codec: Codec, alias: string, body: Bytes): Action {
    match codec.decode(body)
    case None => Abort
    case Some(text) => HandleText(codec, alias, text)
  }

  function Rewriter(codec: Codec, alias: string, limit: nat): Machine {
    Machine(body => Handle(codec, alias, body), limit,
            Framed(codec, "data: " + DONE), Framed(codec, "data: " + INTERRUPTED))
  }

  // ------------------------------------------------------------------
  // What the parts of a rewrite come to
  // ------------------------------------------------------------------

  // A line ends at any of these: one character, or CR and LF together, or a CR without a LF.
  predicate IsBreak(end: string, rest: string) {
    || (|end| == 1 && end[0] in "\n\U{0B}\U{0C}\U{1C}\U{1D}\U{1E}\U{85}\U{2028}\U{2029}")
    || end == "\r\n"
    || (end == "\r" && (rest == "" || rest[0] != '\n'))
  }

  lemma SplitAtBreak(line: string, end: string, rest: string)
    requires OneLine(line) && IsBreak(end, rest)
    ensures SplitLines(line + end + rest) == [line] + SplitLines(rest)
  {
    var text, k := line + end + rest, |line|;
    assert text[..k] == line && text[k] == end[0] && text[k..] == end + rest;
    FirstSeparatorIs(text, k);
    assert text[k + |end|..] == rest;
    if end == "\r\n" {
      assert (end + rest)[..2] == "\r\n";
    } else if end == "\r" && rest != "" {
      assert (end + rest)[1] == rest[0];
    } else {
      assert (end + rest)[0] == end[0];
    }
  }

  lemma SplitWithoutBreak(line: string)
    requires OneLine(line)
    ensures SplitLines(line) == if line == "" then [] else [line]
  {
    assert line[..|line|] == line;
    FirstSeparatorIs(line, |line|);
  }

  lemma FirstSeparatorIs(text: string, k: nat)
    requires k <= |text| && OneLine(text[..k])
    requires k < |text| ==> IsSeparator(text[k])
    ensures FirstSeparator(text) == k
  {
    var found := FirstSeparator(text);
    assert forall i :: 0 <= i < k ==> text[..k][i] == text[i];
    assert forall i :: 0 <= i < found ==> text[..found][i] == text[i];
  }

  // Every line is either data, and counts as its payload, or goes among the others.
  lemma LinePart(line: string)
    ensures if |line| >= 5 && line[..5] == "data:" then DataParts([line]) == [StripSpaces(line[5..])] && OtherLines([line]) == []
            else DataParts([line]) == [] && OtherLines([line]) == [line]
  {
    assert [line][1..] == [];
  }

  // Leading spaces go, and nothing else.
  lemma {:induction false} StripExactly(s: string) returns (k: nat)
    ensures k <= |s| && StripSpaces(s) == s[k..]
    ensures (forall i :: 0 <= i < k ==> s[i] == ' ') && (k < |s| ==> s[k] != ' ')
  {
    if s == "" || s[0] != ' ' {
      k := 0;
    } else {
      k := StripExactly(s[1..]);
      k := k + 1;
    }
  }

  lemma {:induction false} DataPartsApart(a: seq<string>, b: seq<string>)
    ensures DataParts(a + b) == DataParts(a) + DataParts(b)
  {
    if a == [] {
      assert a + b == b;
    } else {
      assert (a + b)[1..] == a[1..] + b;
      DataPartsApart(a[1..], b);
      var first := if IsData(a[0]) then [StripSpaces(a[0][5..])] else [];
      assert first + (DataParts(a[1..]) + DataParts(b)) == first + DataParts(a[1..]) + DataParts(b);
    }
  }

  lemma {:induction false} OtherLinesApart(a: seq<string>, b: seq<string>)
    ensures OtherLines(a + b) == OtherLines(a) + OtherLines(b)
  {
    if a == [] {
      assert a + b == b;
    } else {
      assert (a + b)[1..] == a[1..] + b;
      OtherLinesApart(a[1..], b);
      var first := if IsData(a[0]) then [] else [a[0]];
      assert first + (OtherLines(a[1..]) + OtherLines(b)) == first + OtherLines(a[1..]) + OtherLines(b);
    }
  }

  // An object without an error is rewritten, and nothing else; its model, if it names one,
  // becomes the alias, and every other key keeps its place and its value.
  lemma RewrittenExactly(alias: string, value: Option<Json>)
    ensures Rewritten(alias, value).Some? <==> value.Some? && value.value.Obj? && !HasKey(value.value, "error")
    ensures Rewritten(alias, value).Some? ==> Renames(value.value, Rewritten(alias, value).value, alias)
  {
    if Rewritten(alias, value).Some? {
      forall key
        ensures Get(Rewritten(alias, value).value, key)
             == if key == "model" && HasKey(value.value, "model") then Some(Str(alias)) else Get(value.value, key)
      {
        LookupReplace(value.value.fields, "model", Str(alias), key);
      }
    }
  }

  // Usage is reported by an object only: its three counters, where they are non-negative integers.
  lemma UsageExactly(value: Option<Json>)
    requires value.Some? ==> WellFormed(value.value)
    ensures UsageOf(value).Some? <==> value.Some? && value.value.Obj?
    ensures UsageOf(value).Some? ==> forall key :: CounterReported(UsageOf(value).value, value.value, key)
  {
    if UsageOf(value).Some? {
      forall key
        ensures CounterReported(UsageOf(value).value, value.value, key)
      {
        CountersExactly(value.value.fields, key);
      }
    }
  }

  predicate CounterReported(usage: Usage, value: Json, key: string) {
    var found := Get(value, key);
    if (key == "prompt_tokens" || key == "completion_tokens" || key == "total_tokens")
       && found.Some? && found.value.Int? && found.value.n >= 0
    then key in usage && usage[key] == found.value.n
    else key !in usage
  }

  predicate UsageAt(fields: seq<Field>, key: string) {
    var found := Lookup(fields, key);
    var counts := key in USAGE_KEYS && found.Some? && found.value.Int? && found.value.n >= 0;
    (key in UsageFields(fields) <==> counts) && (counts ==> UsageFields(fields)[key] == found.value.n)
  }

  lemma {:induction false} CountersExactly(fields: seq<Field>, key: string)
    requires forall i, j :: 0 <= i < j < |fields| ==> fields[i].key != fields[j].key
    ensures UsageAt(fields, key)
  {
    if fields == [] {
    } else {
      CountersExactly(fields[1..], key);
      if fields[0].key == key { NotLater(fields[1..], key); }
    }
  }

  lemma {:induction false} NotLater(fields: seq<Field>, key: string)
    requires forall i :: 0 <= i < |fields| ==> fields[i].key != key
    ensures Lookup(fields, key).None?
  {
    if fields == [] {
    } else {
      NotLater(fields[1..], key);
    }
  }

  // What becomes of an event: the end marker finishes, a payload that is no object without
  // an error aborts, an event without payload is forwarded line by line, and any other
  // with the same other lines and the same value under the alias.
  lemma HandledExactly(codec: Codec, alias: string, text: string) returns (value: Json)
    ensures var lines, action := SplitLines(text), HandleText(codec, alias, text);
            var data := Join(DataParts(lines));
            && (action.Finish? <==> data == "[DONE]")
            && (action.Abort? <==> data != "" && data != "[DONE]"
                                   && !(codec.load(data).Some? && codec.load(data).value.Obj?
                                        && !HasKey(codec.load(data).value, "error")))
            && (action.Forward? && data == "" ==> action == Forward(codec.encode(Join(lines) + "\n\n"), None))
            && (action.Forward? && data != "" ==>
                  && Renames(codec.load(data).value, value, alias)
                  && action == Forward(codec.encode(Join(OtherLines(lines) + ["data: " + codec.dump(value)]) + "\n\n"),
                                       UsageOf(Get(codec.load(data).value, "usage"))))
  {
    var data := Join(DataParts(SplitLines(text)));
    RewrittenExactly(alias, codec.load(data));
    value := if HandleText(codec, alias, text).Forward? && data != "" then Rewritten(alias, codec.load(data)).value else Null;
  }

  // The rewriter of one request: bytes that are no text abort, text is handled as above, and
  // the two ends are fixed.
  lemma RewriterExactly(codec: Codec, alias: string, limit: nat, body: Bytes)
    ensures var m := Rewriter(codec, alias, limit);
            && m.limit == limit
            && (codec.decode(body).None? ==> m.handle(body) == Abort)
            && (codec.decode(body).Some? ==> m.handle(body) == HandleText(codec, alias, codec.decode(body).value))
            && m.doneFrame == codec.encode("data: [DONE]" + "\n\n")
            && m.interruptedFrame == codec.encode("data: " + INTERRUPTED + "\n\n")
  {
    assert "data: " + DONE == "data: [DONE]";
  }

  ghost predicate Renames(before: Json, after: Json, alias: string) {
    && before.Obj? && after.Obj? && |after.fields| == |before.fields|
    && (forall i :: 0 <= i < |after.fields| ==> after.fields[i].key == before.fields[i].key)
    && (forall key :: Get(after, key) == if key == "model" && HasKey(before, "model") then Some(Str(alias)) else Get(before, key))
  }

  // ------------------------------------------------------------------
  // What is assumed of UTF-8 and JSON
  // ------------------------------------------------------------------

  // UTF-8: strict decoding inverts encoding, text is encoded character by
  // character, and only LF and CR use the bytes 10 and 13.
  ghost predicate LawfulText(codec: Codec) {
    && (forall b, t :: codec.decode(b) == Some(t) <==> codec.encode(t) == b)
    && (forall s, t :: codec.encode(s + t) == codec.encode(s) + codec.encode(t))
    && codec.encode("\n") == [LF]
    && codec.encode("\r") == [CR]
    && (forall c: char :: c != '\n' && c != '\r' ==>
          codec.encode([c]) != [] && LF !in codec.encode([c]) && CR !in codec.encode([c]))
  }

  // JSON: on the values it can return, loading inverts dumping, and dumped text is one line
  // that does not start with a space; renaming the model of such a value gives another;
  // and the two terminal texts load as they should.
  ghost predicate LawfulJson(codec: Codec) {
    && (forall v :: codec.values(v) ==> codec.load(codec.dump(v)) == Some(v))
    && (forall v :: codec.values(v) ==> OneLine(codec.dump(v)) && codec.dump(v) != "" && codec.dump(v)[0] != ' ')
    && (forall t :: codec.load(t).Some? ==> codec.values(codec.load(t).value))
    && (forall fields, alias :: codec.values(Obj(fields)) ==> codec.values(Obj(Replace(fields, "model", Str(alias)))))
    && codec.load(DONE) == None
    && codec.values(INTERRUPTED_VALUE) && codec.dump(INTERRUPTED_VALUE) == INTERRUPTED
  }

  ghost predicate Lawful(codec: Codec) {
    LawfulText(codec) && LawfulJson(codec)
  }

  // ------------------------------------------------------------------
  // No rewritten event is mistaken for the end of the stream
  // ------------------------------------------------------------------

  lemma JoinBreaksLines(lines: seq<string>)
    requires |lines| > 1
    ensures !OneLine(Join(lines))
  {
    assert Join(lines)[|lines[0]|] == '\n';
  }

  lemma JoinOneLine(lines: seq<string>, text: string)
    requires OneLine(text) && text != "" && Join(lines) == text
    ensures lines == [text]
  {
    if |lines| > 1 { JoinBreaksLines(lines); }
  }

  lemma OneLineConcat(a: string, b: string)
    requires OneLine(a) && OneLine(b)
    ensures OneLine(a + b)
  {
  }

  lemma FramedInjective(codec: Codec, a: string, b: string)
    requires LawfulText(codec) && Framed(codec, a) == Framed(codec, b)
    ensures a == b
  {
    assert codec.decode(codec.encode(a + "\n\n")) == Some(a + "\n\n");
    assert codec.decode(codec.encode(b + "\n\n")) == Some(b + "\n\n");
    assert a == (a + "\n\n")[..|a + "\n\n"| - 2];
    assert b == (b + "\n\n")[..|b + "\n\n"| - 2];
  }

  lemma RewrittenValue(codec: Codec, alias: string, value: Option<Json>)
    requires LawfulJson(codec) && (value.Some? ==> codec.values(value.value))
    ensures Rewritten(alias, value).Some? ==>
              var v := Rewritten(alias, value).value;
              && v.Obj? && codec.values(v) && !HasKey(v, "error")
              && Renames(value.value, v, alias)
              && Rewritten(alias, Some(v)) == Some(v)
  {
    RewrittenExactly(alias, value);
    if Rewritten(alias, value).Some? {
      var fields := value.value.fields;
      LookupReplace(fields, "model", Str(alias), "error");
      assert Replace(Replace(fields, "model", Str(alias)), "model", Str(alias)) == Replace(fields, "model", Str(alias));
    }
  }

  // The lines of a rewritten event that carries data.
  lemma {:induction false} DataLine(others: seq<string>, payload: string)
    requires forall i :: 0 <= i < |others| ==> !IsData(others[i])
    requires payload != "" && payload[0] != ' '
    ensures DataParts(others + ["data: " + payload]) == [payload]
    ensures OtherLines(others + ["data: " + payload]) == others
  {
    var line := "data: " + payload;
    var lines := others + [line];
    if others == [] {
      assert IsData(line) && line[5..] == " " + payload;
      assert (" " + payload)[1..] == payload;
      assert StripSpaces(line[5..]) == StripSpaces(payload) == payload;
      assert lines == [line] && lines[1..] == [];
    } else {
      assert lines[1..] == others[1..] + [line];
      DataLine(others[1..], payload);
    }
  }

  lemma {:induction false} OthersAreNotData(lines: seq<string>)
    ensures forall i :: 0 <= i < |OtherLines(lines)| ==> !IsData(OtherLines(lines)[i])
  {
    if lines == [] {
    } else {
      OthersAreNotData(lines[1..]);
    }
  }

  // A payload that is no rewritten value cannot be the data of a forwarded
  // event: neither of one that is passed through unchanged ...
  lemma PlainEventIsNot(lines: seq<string>, payload: string)
    requires payload != "" && payload[0] != ' ' && OneLine("data: " + payload)
    requires Join(DataParts(lines)) == ""
    ensures Join(lines) != "data: " + payload
  {
    DataLine([], payload);
    assert [] + ["data: " + payload] == ["data: " + payload];
    if Join(lines) == "data: " + payload {
      JoinOneLine(lines, "data: " + payload);
    }
  }

  // ... nor of one whose value was rewritten.
  lemma RewrittenEventIsNot(codec: Codec, alias: string, others: seq<string>, value: Json, payload: string)
    requires LawfulJson(codec) && OneLine("data: " + payload)
    requires codec.values(value) && Rewritten(alias, Some(value)) == Some(value)
    requires Rewritten(alias, codec.load(payload)) == None
    ensures Join(others + ["data: " + codec.dump(value)]) != "data: " + payload
  {
    var last := "data: " + codec.dump(value);
    var lines := others + [last];
    assert lines[|others|] == last && last[6..] == codec.dump(value);
    assert ("data: " + payload)[6..] == payload;
    if Join(lines) == "data: " + payload {
      JoinOneLine(lines, "data: " + payload);
    }
  }

  lemma ForwardedIsNot(codec: Codec, alias: string, text: string, payload: string)
    requires Lawful(codec)
    requires payload != "" && payload[0] != ' ' && OneLine("data: " + payload)
    requires Rewritten(alias, codec.load(payload)) == None
    requires HandleText(codec, alias, text).Forward?
    ensures HandleText(codec, alias, text).frame != Framed(codec, "data: " + payload)
  {
    var lines := SplitLines(text);
    var data := Join(DataParts(lines));
    if HandleText(codec, alias, text).frame == Framed(codec, "data: " + payload) {
      if data == "" {
        FramedInjective(codec, Join(lines), "data: " + payload);
        PlainEventIsNot(lines, payload);
      } else {
        var value := Rewritten(alias, codec.load(data)).value;
        RewrittenValue(codec, alias, codec.load(data));
        FramedInjective(codec, Join(OtherLines(lines) + ["data: " + codec.dump(value)]), "data: " + payload);
        RewrittenEventIsNot(codec, alias, OtherLines(lines), value, payload);
      }
    }
  }

  lemma TerminalPayloads(codec: Codec, alias: string)
    requires LawfulJson(codec)
    ensures Rewritten(alias, codec.load(DONE)) == None
    ensures Rewritten(alias, codec.load(INTERRUPTED)) == None
    ensures OneLine("data: " + DONE) && OneLine("data: " + INTERRUPTED)
    ensures INTERRUPTED != "" && INTERRUPTED[0] != ' '
  {
    assert codec.load(INTERRUPTED) == Some(INTERRUPTED_VALUE);
    assert OneLine("data: ") && OneLine(DONE);
    OneLineConcat("data: ", DONE);
    OneLineConcat("data: ", INTERRUPTED);
  }

  lemma NoEventLooksTerminal(codec: Codec, alias: string, limit: nat)
    requires Lawful(codec)
    ensures Distinguishable(Rewriter(codec, alias, limit))
  {
    var m := Rewriter(codec, alias, limit);
    TerminalPayloads(codec, alias);
    assert |"data: " + DONE| < |"data: " + INTERRUPTED|;
    if m.doneFrame == m.interruptedFrame {
      FramedInjective(codec, "data: " + DONE, "data: " + INTERRUPTED);
    }
    forall body | React(m, body).Forward?
      ensures React(m, body).frame != m.doneFrame && React(m, body).frame != m.interruptedFrame
    {
      ForwardedIsNot(codec, alias, codec.decode(body).value, DONE);
      ForwardedIsNot(codec, alias, codec.decode(body).value, INTERRUPTED);
    }
  }

  // Whatever arrives, however it is cut and however it stops, the client sees forwarded
  // events and then exactly one terminal frame, which says how the stream ended.
  lemma RewrittenStreamEndsOnce(codec: Codec, alias: string, limit: nat, chunks: seq<Bytes>, ending: Ending)
    requires Lawful(codec)
    ensures var m := Rewriter(codec, alias, limit);
            var r := Streamed(m, [], chunks, ending);
            WellEnded(m, r) && (r.outcome == Cancelled ==> ending == CancelledRead)
  {
    NoEventLooksTerminal(codec, alias, limit);
    StreamEndsOnce(Rewriter(codec, alias, limit), [], chunks, ending);
  }
}
