/**
 The body of a completion, as the JSON reader delivers it and the JSON writer takes it.
 The reader accepts NaN and the infinities, and escapes that stand for half of a
 surrogate pair; the writer accepts neither, so a body that was read can fail to be
 written.  Text is a sequence of code points here, because it may hold such halves.
 */
module Rendering {
  import opened Wrappers
  import opened EventStream
  import JsonText
  import SseRewriter
  import SseStream

  type CodePoint = c: nat | c < 0x110000
  type Text = seq<CodePoint>

  predicate IsPlain(text: Text) {
    forall i :: 0 <= i < |text| ==> text[i] < 0x80
  }

  type Plain = text: Text | IsPlain(text)

  datatype Member = Member(key: Text, value: Value)

  // A finite float is kept as the text it is written as.
  datatype Value =
    | Null
    | Bool(b: bool)
    | Int(n: int)
    | Float(written: Plain)
    | NonFinite
    | String(text: Text)
    | List(items: seq<Value>)
    | Dict(members: seq<Member>)

  function Points(s: string): (text: Text)
    ensures |text| == |s| && Scalar(text)
  {
    seq(|s|, i requires 0 <= i < |s| => s[i] as int)
  }

  // ------------------------------------------------------------------
  // Dictionaries
  // ------------------------------------------------------------------

  predicate Has(members: seq<Member>, key: Text) {
    exists i | 0 <= i < |members| :: members[i].key == key
  }

  function Replaced(members: seq<Member>, key: Text, value: Value): (r: seq<Member>)
    ensures |r| == |members|
    ensures forall i :: 0 <= i < |r| ==> r[i] == if members[i].key == key then Member(key, value) else members[i]
  {
    seq(|members|, i requires 0 <= i < |members| => if members[i].key == key then Member(key, value) else members[i])
  }

  // Set a key in place, or add it at the end.
  function Put(members: seq<Member>, key: Text, value: Value): seq<Member> {
    if Has(members, key)
    then Replaced(members, key, value)
    else members + [Member(key, value)]
  }

  const MODEL := Points("model")
  const ERROR := Points("error")
  const CHOICES := Points("choices")
  const USAGE := Points("usage")

  predicate IsCompletion(value: Value) {
    value.Dict? && !Has(value.members, ERROR) && Has(value.members, CHOICES)
  }

  // The completion under the name the client asked for
  function Renamed(value: Value, alias: string): Value
    requires value.Dict?
  {
    Dict(Put(value.members, MODEL, String(Points(alias))))
  }

  function Get(value: Value, key: Text): Option<Value> {
    if !value.Dict? then None else Find(value.members, key)
  }

  function Find(members: seq<Member>, key: Text): Option<Value> {
    if members == [] then None
    else if members[0].key == key then Some(members[0].value)
    else Find(members[1..], key)
  }

  // What a completion reports: the known counters that are non-negative integers
  function UsageOf(value: Option<Value>): Option<SseStream.Usage> {
    if value.None? || !value.value.Dict? then None
    else
      Some(map key | key in SseRewriter.USAGE_KEYS && Counter(Get(value.value, Points(key))) ::
             Get(value.value, Points(key)).value.n)
  }

  predicate Counter(value: Option<Value>) {
    value.Some? && value.value.Int? && value.value.n >= 0
  }

  // ------------------------------------------------------------------
  // Writing
  // ------------------------------------------------------------------

  function Hex(d: nat): CodePoint
    requires d < 16
  {
    if d < 10 then 0x30 + d else 0x61 + d - 10
  }

  // Only quotes, backslashes and control characters are escaped.
  function Escaped(c: CodePoint): Text {
    if c == 0x22 || c == 0x5C then [0x5C, c]
    else if c == 0x0A then [0x5C, 0x6E]
    else if c == 0x0D then [0x5C, 0x72]
    else if c == 0x09 then [0x5C, 0x74]
    else if c == 0x08 then [0x5C, 0x62]
    else if c == 0x0C then [0x5C, 0x66]
    else if c < 0x20 then [0x5C, 0x75, 0x30, 0x30, Hex(c / 16), Hex(c % 16)]
    else [c]
  }

  function EscapedText(text: Text): Text {
    if text == [] then [] else Escaped(text[0]) + EscapedText(text[1..])
  }

  function Quoted(text: Text): Text {
    [0x22] + EscapedText(text) + [0x22]
  }

  function Concat(a: Option<Text>, b: Option<Text>): Option<Text> {
    if a.Some? && b.Some? then Some(a.value + b.value) else None
  }

  // Compact JSON text, or None at a number that is not finite
  function Dump(value: Value): Option<Text>
    decreases value
  {
    match value
    case Null => Some(Points("null"))
    case Bool(b) => Some(if b then Points("true") else Points("false"))
    case Int(n) => Some(Points(JsonText.Decimal(n)))
    case Float(written) => Some(written)
    case NonFinite => None
    case String(text) => Some(Quoted(text))
    case List(items) => Concat(Some([0x5B]), Concat(DumpItems(items), Some([0x5D])))
    case Dict(members) => Concat(Some([0x7B]), Concat(DumpMembers(members), Some([0x7D])))
  }

  function Comma(rest: int): Text {
    if rest == 0 then [] else [0x2C]
  }

  function DumpItems(items: seq<Value>): Option<Text>
    decreases items
  {
    if items == [] then Some([])
    else Concat(Dump(items[0]), Concat(Some(Comma(|items| - 1)), DumpItems(items[1..])))
  }

  function DumpMembers(members: seq<Member>): Option<Text>
    decreases members
  {
    if members == [] then Some([])
    else
      Concat(Concat(Some(Quoted(members[0].key) + [0x3A]), Dump(members[0].value)),
             Concat(Some(Comma(|members| - 1)), DumpMembers(members[1..])))
  }

  predicate Surrogate(c: CodePoint) {
    0xD800 <= c < 0xE000
  }

  function Utf8(c: CodePoint): Bytes {
    if c < 0x80 then [c]
    else if c < 0x800 then [0xC0 + c / 0x40, 0x80 + c % 0x40]
    else if c < 0x10000 then [0xE0 + c / 0x1000, 0x80 + c / 0x40 % 0x40, 0x80 + c % 0x40]
    else [0xF0 + c / 0x40000, 0x80 + c / 0x1000 % 0x40, 0x80 + c / 0x40 % 0x40, 0x80 + c % 0x40]
  }

  // Strict encoding refuses a surrogate.
  function Encode(text: Text): Option<Bytes> {
    if text == [] then Some([])
    else if Surrogate(text[0]) || Encode(text[1..]).None? then None
    else Some(Utf8(text[0]) + Encode(text[1..]).value)
  }

  function Render(value: Value): Option<Bytes> {
    match Dump(value)
    case None => None
    case Some(text) => Encode(text)
  }

  // ------------------------------------------------------------------
  // Which values can be written
  // ------------------------------------------------------------------

  predicate Scalar(text: Text) {
    forall i :: 0 <= i < |text| ==> !Surrogate(text[i])
  }

  // No number that is not finite and no half of a surrogate pair, at any depth
  predicate Renderable(value: Value)
    decreases value
  {
    match value
    case Null | Bool(_) | Int(_) | Float(_) => true
    case NonFinite => false
    case String(text) => Scalar(text)
    case List(items) => forall i | 0 <= i < |items| :: Renderable(items[i])
    case Dict(members) => forall i | 0 <= i < |members| :: Scalar(members[i].key) && Renderable(members[i].value)
  }

  predicate Writable(text: Option<Text>) {
    text.Some? && Scalar(text.value)
  }

  lemma ConcatWritable(a: Option<Text>, b: Option<Text>)
    ensures Writable(Concat(a, b)) <==> Writable(a) && Writable(b)
  {
    if a.Some? && b.Some? {
      assert forall i :: 0 <= i < |a.value| ==> (a.value + b.value)[i] == a.value[i];
      assert forall i :: 0 <= i < |b.value| ==> (a.value + b.value)[|a.value| + i] == b.value[i];
    }
  }

  lemma {:induction false} EscapedScalar(text: Text)
    ensures Scalar(EscapedText(text)) <==> Scalar(text)
  {
    if text == [] {
    } else {
      EscapedScalar(text[1..]);
      assert text == [text[0]] + text[1..];
      ConcatWritable(Some([text[0]]), Some(text[1..]));
      ConcatWritable(Some(Escaped(text[0])), Some(EscapedText(text[1..])));
      assert Scalar([text[0]]) <==> !Surrogate(text[0]);
      OneEscape(text[0]);
    }
  }

  lemma OneEscape(c: CodePoint)
    ensures Scalar(Escaped(c)) <==> !Surrogate(c)
  {
    if c >= 0x20 && c != 0x22 && c != 0x5C { assert Escaped(c) == [c] && [c][0] == c; }
  }

  lemma QuotedWritable(text: Text)
    ensures Writable(Some(Quoted(text))) <==> Scalar(text)
  {
    EscapedScalar(text);
    ConcatWritable(Some([0x22]), Some(EscapedText(text)));
    ConcatWritable(Some([0x22] + EscapedText(text)), Some([0x22]));
  }

  lemma {:induction false} DumpExactly(value: Value)
    ensures Writable(Dump(value)) <==> Renderable(value)
    decreases value
  {
    match value
    case Null =>
    case Bool(_) =>
    case Int(_) =>
    case Float(_) =>
    case NonFinite =>
    case String(text) => QuotedWritable(text);
    case List(items) =>
      ItemsExactly(items);
      Bracketed([0x5B], DumpItems(items), [0x5D]);
    case Dict(members) =>
      MembersExactly(members);
      Bracketed([0x7B], DumpMembers(members), [0x7D]);
  }

  lemma Bracketed(open_: Plain, body: Option<Text>, close_: Plain)
    ensures Writable(Concat(Some(open_), Concat(body, Some(close_)))) <==> Writable(body)
  {
    ConcatWritable(body, Some(close_));
    ConcatWritable(Some(open_), Concat(body, Some(close_)));
  }

  lemma {:induction false} ItemsExactly(items: seq<Value>)
    ensures Writable(DumpItems(items)) <==> forall i :: 0 <= i < |items| ==> Renderable(items[i])
    decreases items
  {
    if items == [] {
    } else {
      DumpExactly(items[0]);
      ItemsExactly(items[1..]);
      assert forall i :: 1 <= i < |items| ==> items[i] == items[1..][i - 1];
      Separated(Dump(items[0]), |items| - 1, DumpItems(items[1..]));
    }
  }

  lemma Separated(first: Option<Text>, more: int, rest: Option<Text>)
    ensures Writable(Concat(first, Concat(Some(Comma(more)), rest))) <==> Writable(first) && Writable(rest)
  {
    ConcatWritable(Some(Comma(more)), rest);
    ConcatWritable(first, Concat(Some(Comma(more)), rest));
  }

  lemma {:induction false} MembersExactly(members: seq<Member>)
    ensures Writable(DumpMembers(members))
       <==> forall i :: 0 <= i < |members| ==> Scalar(members[i].key) && Renderable(members[i].value)
    decreases members
  {
    if members == [] {
    } else {
      var Member(key, value) := members[0];
      DumpExactly(value);
      MembersExactly(members[1..]);
      assert forall i :: 1 <= i < |members| ==> members[i] == members[1..][i - 1];
      QuotedWritable(key);
      ConcatWritable(Some(Quoted(key)), Some([0x3A]));
      ConcatWritable(Some(Quoted(key) + [0x3A]), Dump(value));
      Separated(Concat(Some(Quoted(key) + [0x3A]), Dump(value)), |members| - 1, DumpMembers(members[1..]));
    }
  }

  lemma {:induction false} EncodeExactly(text: Text)
    ensures Encode(text).Some? <==> Scalar(text)
  {
    if text == [] {
    } else {
      EncodeExactly(text[1..]);
      assert forall i :: 1 <= i < |text| ==> text[i] == text[1..][i - 1];
    }
  }

  // Writing succeeds exactly for the values without such parts.
  lemma RendersExactly(value: Value)
    ensures Render(value).Some? <==> Renderable(value)
  {
    DumpExactly(value);
    if Dump(value).Some? { EncodeExactly(Dump(value).value); }
  }

  // What the upstream called the model is overwritten, so it does not matter.
  lemma RenamedExactly(value: Value, alias: string)
    requires value.Dict?
    ensures Renderable(Renamed(value, alias))
       <==> forall i :: 0 <= i < |value.members| && value.members[i].key != MODEL ==>
              Scalar(value.members[i].key) && Renderable(value.members[i].value)
  {
    var members := value.members;
    var put := Put(members, MODEL, String(Points(alias)));
    assert Renderable(String(Points(alias)));
    if Has(members, MODEL) {
      var k :| 0 <= k < |members| && members[k].key == MODEL;
      assert put[k] == Member(MODEL, String(Points(alias)));
      assert forall i :: 0 <= i < |members| && members[i].key != MODEL ==> put[i] == members[i];
    } else {
      assert put[|members|] == Member(MODEL, String(Points(alias)));
      assert forall i :: 0 <= i < |members| ==> put[i] == members[i];
    }
  }

  // ------------------------------------------------------------------
  // Keys
  // ------------------------------------------------------------------

  lemma {:induction false} FindsExactly(members: seq<Member>, key: Text)
    ensures Has(members, key) <==> Find(members, key).Some?
  {
    if members == [] {
    } else {
      FindsExactly(members[1..], key);
      assert forall i :: 1 <= i < |members| ==> members[i] == members[1..][i - 1];
      if i :| 0 <= i < |members| && members[i].key == key {
        if i > 0 { assert Has(members[1..], key) by { assert members[1..][i - 1].key == key; } }
      }
    }
  }

  // Under the alias, every key but the model has the value it had, and the model is the alias.
  lemma RenamedKeys(value: Value, alias: string, key: Text)
    requires value.Dict?
    ensures Get(Renamed(value, alias), key) == if key == Points("model") then Some(String(Points(alias))) else Get(value, key)
  {
    FindsExactly(value.members, MODEL);
    var model := String(Points(alias));
    if Has(value.members, MODEL) {
      var k :| 0 <= k < |value.members| && value.members[k].key == MODEL;
      FindReplaced(value.members, MODEL, model, key);
    } else {
      FindAppended(value.members, Member(MODEL, model), key);
    }
  }

  lemma {:induction false} FindReplaced(members: seq<Member>, key: Text, value: Value, other: Text)
    ensures Find(Replaced(members, key, value), other)
         == if other == key && Find(members, key).Some? then Some(value) else Find(members, other)
  {
    if members == [] {
    } else {
      assert Replaced(members, key, value)[1..] == Replaced(members[1..], key, value);
      FindReplaced(members[1..], key, value, other);
    }
  }

  lemma {:induction false} FindAppended(members: seq<Member>, last: Member, key: Text)
    ensures Find(members + [last], key)
         == if Find(members, key).Some? then Find(members, key) else if last.key == key then Some(last.value) else None
  {
    if members == [] {
      assert members + [last] == [last];
    } else {
      assert (members + [last])[1..] == members[1..] + [last];
      FindAppended(members[1..], last, key);
    }
  }

  // A completion reports the counters among these that are non-negative integers.
  lemma UsageExactly(value: Option<Value>)
    ensures UsageOf(value).Some? <==> value.Some? && value.value.Dict?
    ensures UsageOf(value).Some? ==>
              forall key: string :: CounterReported(UsageOf(value).value, value.value, key)
  {
  }

  predicate CounterReported(usage: SseStream.Usage, value: Value, key: string) {
    var found := Get(value, Points(key));
    if (key == "prompt_tokens" || key == "completion_tokens" || key == "total_tokens")
       && found.Some? && found.value.Int? && found.value.n >= 0
    then key in usage && usage[key] == found.value.n
    else key !in usage
  }
}
