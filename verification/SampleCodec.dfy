/**
 A codec that meets the laws the rewriter relies on: UTF-8, and compact JSON for values
 without floats.  Decoding and loading are defined as inverses, and exist because no two
 texts have the same bytes and no two values the same text.
 */
module SampleCodec {
  import opened Wrappers
  import opened JsonValues
  import opened JsonText
  import opened EventStream
  import opened SseRewriter
  import Rendering

  // ------------------------------------------------------------------
  // Text
  // ------------------------------------------------------------------

  function Encode(text: string): Bytes {
    if text == "" then [] else Rendering.Utf8(text[0] as int) + Encode(text[1..])
  }

  lemma {:induction false} EncodeConcat(a: string, b: string)
    ensures Encode(a + b) == Encode(a) + Encode(b)
  {
    if a == "" {
      assert a + b == b;
    } else {
      assert (a + b)[1..] == a[1..] + b;
      EncodeConcat(a[1..], b);
    }
  }

  lemma EncodeOne(c: char)
    ensures Encode([c]) == Rendering.Utf8(c as int)
  {
    assert [c][1..] == "" && Encode("") == [];
  }

  // The first byte tells how many follow, and together they tell the character.
  function FirstPoint(bytes: Bytes): int
    requires bytes != []
  {
    var at := (i: int) => if 0 <= i < |bytes| then bytes[i] as int else 0;
    if at(0) < 0x80 then at(0)
    else if at(0) < 0xE0 then 0x40 * (at(0) - 0xC0) + (at(1) - 0x80)
    else if at(0) < 0xF0 then 0x1000 * (at(0) - 0xE0) + 0x40 * (at(1) - 0x80) + (at(2) - 0x80)
    else 0x40000 * (at(0) - 0xF0) + 0x1000 * (at(1) - 0x80) + 0x40 * (at(2) - 0x80) + (at(3) - 0x80)
  }

  lemma PointSums(c: nat)
    ensures c == 0x40 * (c / 0x40) + c % 0x40
    ensures c == 0x1000 * (c / 0x1000) + 0x40 * (c / 0x40 % 0x40) + c % 0x40
    ensures c == 0x40000 * (c / 0x40000) + 0x1000 * (c / 0x1000 % 0x40) + 0x40 * (c / 0x40 % 0x40) + c % 0x40
  {
    assert c / 0x1000 == c / 0x40 / 0x40 && c / 0x40000 == c / 0x1000 / 0x40;
  }

  lemma PointRead(c: Rendering.CodePoint, rest: Bytes)
    ensures Rendering.Utf8(c) != [] && FirstPoint(Rendering.Utf8(c) + rest) == c
  {
    PointSums(c);
  }

  lemma PointApart(c: Rendering.CodePoint, d: Rendering.CodePoint, x: Bytes, y: Bytes)
    requires Rendering.Utf8(c) + x == Rendering.Utf8(d) + y
    ensures c == d && x == y
  {
    PointRead(c, x);
    PointRead(d, y);
    assert x == (Rendering.Utf8(c) + x)[|Rendering.Utf8(c)|..];
    assert y == (Rendering.Utf8(d) + y)[|Rendering.Utf8(d)|..];
  }

  lemma {:induction false} EncodeInjective(s: string, t: string)
    requires Encode(s) == Encode(t)
    ensures s == t
  {
    if s == "" || t == "" {
      if s != "" { PointRead(s[0] as int, Encode(s[1..])); }
      if t != "" { PointRead(t[0] as int, Encode(t[1..])); }
    } else {
      PointApart(s[0] as int, t[0] as int, Encode(s[1..]), Encode(t[1..]));
      EncodeInjective(s[1..], t[1..]);
      assert s == [s[0]] + s[1..] && t == [t[0]] + t[1..];
    }
  }

  ghost function Decode(bytes: Bytes): Option<string> {
    if text :| Encode(text) == bytes then Some(text) else None
  }

  // ------------------------------------------------------------------
  // JSON
  // ------------------------------------------------------------------

  ghost predicate Value(v: Json) {
    Exact(v) && WellFormed(v)
  }

  ghost function Load(text: string): Option<Json> {
    if v :| Value(v) && Write(v) == text then Some(v) else None
  }

  ghost function Sample(): Codec {
    Codec(bytes => Decode(bytes), text => Encode(text), text => Load(text), v => Write(v), v => Value(v))
  }

  lemma LoadInvertsWrite(v: Json)
    requires Value(v)
    ensures Load(Write(v)) == Some(v)
  {
    var loaded := Load(Write(v)).value;
    WriteInjective(loaded, v);
  }

  // ------------------------------------------------------------------
  // The laws
  // ------------------------------------------------------------------

  lemma SampleText()
    ensures LawfulText(Sample())
  {
    forall b, t
      ensures Sample().decode(b) == Some(t) <==> Sample().encode(t) == b
    {
      if Encode(t) == b {
        EncodeInjective(Decode(b).value, t);
      }
    }
    forall s, t
      ensures Sample().encode(s + t) == Sample().encode(s) + Sample().encode(t)
    {
      EncodeConcat(s, t);
    }
    EncodeOne('\n');
    EncodeOne('\r');
    forall c: char | c != '\n' && c != '\r'
      ensures Sample().encode([c]) != [] && LF !in Sample().encode([c]) && CR !in Sample().encode([c])
    {
      EncodeOne(c);
    }
  }

  lemma SampleJson()
    ensures LawfulJson(Sample())
  {
    forall v | Value(v)
      ensures Load(Write(v)) == Some(v)
      ensures OneLine(Write(v)) && Write(v) != "" && Write(v)[0] != ' '
    {
      LoadInvertsWrite(v);
      WritePrintable(v);
      FirstTells(v, "");
      assert Write(v) + "" == Write(v);
    }
    forall fields, alias: string | Value(Obj(fields))
      ensures Value(Obj(Replace(fields, "model", Str(alias))))
    {
      ReplaceWellFormed(fields, "model", Str(alias));
      ReplaceExact(fields, "model", Str(alias));
    }
    DoneIsNoValue();
    InterruptedIsWritten();
  }

  lemma ReplaceExact(fields: seq<Field>, key: string, value: Json)
    requires Exact(Obj(fields)) && Exact(value)
    ensures Exact(Obj(Replace(fields, key, value)))
  {
    var r := Replace(fields, key, value);
    forall i | 0 <= i < |r|
      ensures Exact(r[i].value)
    {
      assert Exact(fields[i].value);
    }
  }

  // A list does not start with a D.
  lemma DoneIsNoValue()
    ensures Load(DONE) == None
  {
    if Load(DONE).Some? {
      var v := Load(DONE).value;
      FirstTells(v, "");
      assert Write(v) + "" == DONE && DONE[0] == '[';
      assert v.Arr? && DONE == "[" + WriteItems(v.items, true);
      assert WriteItems(v.items, true) == DONE[1..] && DONE[1] == 'D';
      assert v.items != [];
      FirstTells(v.items[0], WriteItems(v.items[1..], false));
    }
  }

  lemma FieldText(key: string, value: Json, rest: seq<Field>, first: bool)
    ensures WriteFields([Field(key, value)] + rest, first)
         == Comma(first) + (Quoted(key) + (":" + (Write(value) + WriteFields(rest, false))))
  {
    assert ([Field(key, value)] + rest)[1..] == rest;
  }

  predicate AllVerbatim(s: string) {
    forall i :: 0 <= i < |s| ==> Verbatim(s[i])
  }

  function InQuotes(s: string): string {
    "\"" + (s + "\"")
  }

  lemma VerbatimQuoted(s: string)
    requires AllVerbatim(s)
    ensures Quoted(s) == InQuotes(s)
  {
    EscapesVerbatim(s);
  }

  function TextOf(key: string, text: string): string {
    "\"" + key + "\":\"" + text + "\""
  }

  // A field with a plain name and a plain text
  lemma TextField(key: string, text: string, rest: seq<Field>, first: bool)
    requires AllVerbatim(key) && AllVerbatim(text)
    ensures WriteFields([Field(key, Str(text))] + rest, first) == Comma(first) + TextOf(key, text) + WriteFields(rest, false)
  {
    FieldText(key, Str(text), rest, first);
    VerbatimQuoted(key);
    VerbatimQuoted(text);
    Spread(Comma(first), key, text, WriteFields(rest, false));
  }

  lemma Spread(open_: string, key: string, text: string, rest: string)
    ensures open_ + (InQuotes(key) + (":" + (InQuotes(text) + rest))) == open_ + TextOf(key, text) + rest
  {
    assert "\"" + (":" + "\"") == "\":\"";
    assert InQuotes(key) + (":" + (InQuotes(text) + rest)) == TextOf(key, text) + rest;
  }

  lemma ThreeWritten(a: string, x: string, b: string, y: string, c: string, z: string)
    requires AllVerbatim(a) && AllVerbatim(x) && AllVerbatim(b) && AllVerbatim(y) && AllVerbatim(c) && AllVerbatim(z)
    ensures Write(Obj([Field(a, Str(x)), Field(b, Str(y)), Field(c, Str(z))]))
         == "{" + TextOf(a, x) + ("," + TextOf(b, y) + ("," + TextOf(c, z) + "}"))
  {
    var f, g, h := Field(a, Str(x)), Field(b, Str(y)), Field(c, Str(z));
    assert [f] + [g, h] == [f, g, h] && [g] + [h] == [g, h] && [h] + [] == [h];
    TextField(a, x, [g, h], true);
    TextField(b, y, [h], false);
    TextField(c, z, [], false);
    Bracket(TextOf(a, x), WriteFields([g, h], false));
  }

  lemma Bracket(text: string, rest: string)
    ensures "{" + (Comma(true) + text + rest) == "{" + text + rest
  {
  }

  // An object with one field
  lemma OneWritten(key: string, value: Json)
    requires AllVerbatim(key)
    ensures Write(Obj([Field(key, value)])) == "{" + InQuotes(key) + ":" + Write(value) + "}"
  {
    FieldText(key, value, [], true);
    assert [Field(key, value)] + [] == [Field(key, value)];
    VerbatimQuoted(key);
    InFront(InQuotes(key), Write(value));
  }

  lemma InFront(name: string, text: string)
    ensures "{" + (Comma(true) + (name + (":" + (text + "}")))) == "{" + name + ":" + text + "}"
  {
  }

  function TextError(code: string): Json {
    Obj([Field("message", Str(code)), Field("type", Str("gateway_error")), Field("code", Str(code))])
  }

  lemma ErrorWritten(code: string)
    requires AllVerbatim(code)
    ensures Write(Obj([Field("error", TextError(code))]))
         == "{\"error\":" + ("{\"message\":\"" + code + "\"" + (",\"type\":\"gateway_error\"" + (",\"code\":\"" + code + "\"" + "}"))) + "}"
  {
    NamesVerbatim();
    OneWritten("error", TextError(code));
    ThreeWritten("message", code, "type", "gateway_error", "code", code);
    NamesWritten(code);
  }

  lemma NamesVerbatim()
    ensures AllVerbatim("error") && AllVerbatim("message") && AllVerbatim("type") && AllVerbatim("code")
    ensures AllVerbatim("gateway_error") && AllVerbatim(CODE)
  {
  }

  lemma InterruptedIsWritten()
    ensures Value(INTERRUPTED_VALUE) && Write(INTERRUPTED_VALUE) == INTERRUPTED
  {
    var inner := TextError(CODE);
    assert INTERRUPTED_VALUE == Obj([Field("error", inner)]);
    assert Exact(inner) && WellFormed(inner);
    NamesVerbatim();
    ErrorWritten(CODE);
  }

  lemma NamesWritten(code: string)
    ensures "{" + TextOf("message", code) == "{\"message\":\"" + code + "\""
    ensures "," + TextOf("type", "gateway_error") == ",\"type\":\"gateway_error\""
    ensures "," + TextOf("code", code) == ",\"code\":\"" + code + "\""
    ensures "{" + InQuotes("error") + ":" == "{\"error\":"
  {
    NameWritten("{", "message", code, "{\"message\":\"");
    NameWritten(",", "code", code, ",\"code\":\"");
    NameWritten(",", "type", "gateway_error", ",\"type\":\"");
    assert ",\"type\":\"" + "gateway_error" + "\"" == ",\"type\":\"gateway_error\"";
  }

  lemma NameWritten(open_: string, key: string, text: string, front: string)
    requires front == open_ + "\"" + key + "\":\""
    ensures open_ + TextOf(key, text) == front + text + "\""
  {
  }

  // The laws can be met.
  lemma SampleIsLawful()
    ensures Lawful(Sample())
  {
    SampleText();
    SampleJson();
  }
}
