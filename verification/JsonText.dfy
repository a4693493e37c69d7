/**
 Compact JSON text for values without floats, in plain ASCII.  No text stands for two
 values, which is what makes loading it possible.
 */
module JsonText {
  import opened Wrappers
  import opened JsonValues

  // ------------------------------------------------------------------
  // Writing
  // ------------------------------------------------------------------

  function Digit(d: nat): char
    requires d < 10
  {
    '0' + d as char
  }

  function Digits(n: nat): string {
    if n < 10 then [Digit(n)] else Digits(n / 10) + [Digit(n % 10)]
  }

  function Decimal(n: int): string {
    if n < 0 then "-" + Digits(-n) else Digits(n)
  }

  function Hex(d: nat): char
    requires d < 16
  {
    if d < 10 then '0' + d as char else 'a' + (d - 10) as char
  }

  function Unit(n: nat): string
    requires n < 0x10000
  {
    ['\\', 'u', Hex(n / 0x1000), Hex(n / 0x100 % 0x10), Hex(n / 0x10 % 0x10), Hex(n % 0x10)]
  }

  predicate Verbatim(c: char) {
    ' ' <= c <= '~' && c != '"' && c != '\\'
  }

  // The letter of a two-character escape, for the characters that have one
  function Short(c: char): Option<char> {
    if c == '"' || c == '\\' then Some(c)
    else if c == '\n' then Some('n')
    else if c == '\r' then Some('r')
    else if c == '\t' then Some('t')
    else if c == '\U{08}' then Some('b')
    else if c == '\U{0C}' then Some('f')
    else None
  }

  function Escape(c: char): string {
    if Verbatim(c) then [c]
    else if Short(c).Some? then ['\\', Short(c).value]
    else if c as int < 0x10000 then Unit(c as int)
    else Unit(0xD800 + (c as int - 0x10000) / 0x400) + Unit(0xDC00 + (c as int - 0x10000) % 0x400)
  }

  function Escapes(s: string): string {
    if s == "" then "" else Escape(s[0]) + Escapes(s[1..])
  }

  function Quoted(s: string): string {
    "\"" + (Escapes(s) + "\"")
  }

  function Write(v: Json): string
    decreases v
  {
    match v
    case Null => "null"
    case Bool(b) => if b then "true" else "false"
    case Int(n) => Decimal(n)
    case Float(_, _) => ""
    case Str(s) => Quoted(s)
    case Arr(items) => "[" + WriteItems(items, true)
    case Obj(fields) => "{" + WriteFields(fields, true)
  }

  function Comma(first: bool): string {
    if first then "" else ","
  }

  function WriteItems(items: seq<Json>, first: bool): string
    decreases items
  {
    if items == [] then "]" else Comma(first) + (Write(items[0]) + WriteItems(items[1..], false))
  }

  function WriteFields(fields: seq<Field>, first: bool): string
    decreases fields
  {
    if fields == [] then "}"
    else Comma(first) + (Quoted(fields[0].key) + (":" + (Write(fields[0].value) + WriteFields(fields[1..], false))))
  }

  // No float at any depth
  ghost predicate Exact(v: Json) {
    match v
    case Float(_, _) => false
    case Arr(items) => forall i :: 0 <= i < |items| ==> Exact(items[i])
    case Obj(fields) => forall i :: 0 <= i < |fields| ==> Exact(fields[i].value)
    case _ => true
  }

  // ------------------------------------------------------------------
  // Reading back: numbers
  // ------------------------------------------------------------------

  predicate IsDigit(c: char) {
    '0' <= c <= '9'
  }

  function Number(s: string): int
    requires forall i :: 0 <= i < |s| ==> IsDigit(s[i])
  {
    if s == "" then 0 else 10 * Number(s[..|s| - 1]) + (s[|s| - 1] as int - '0' as int)
  }

  lemma {:induction false} DigitsRead(n: nat)
    ensures Digits(n) != "" && forall i :: 0 <= i < |Digits(n)| ==> IsDigit(Digits(n)[i])
    ensures Number(Digits(n)) == n
  {
    if n < 10 {
      assert [Digit(n)][..0] == "";
      assert Number([Digit(n)]) == 10 * Number("") + n;
    } else {
      DigitsRead(n / 10);
      assert Digits(n)[..|Digits(n)| - 1] == Digits(n / 10);
    }
  }

  // Behind a number stands no digit.
  predicate Delimited(s: string) {
    s != "" ==> !IsDigit(s[0])
  }

  function LeadingDigits(s: string): nat {
    if s == "" || !IsDigit(s[0]) then 0 else 1 + LeadingDigits(s[1..])
  }

  lemma {:induction false} DigitsLead(digits: string, x: string)
    requires (forall i :: 0 <= i < |digits| ==> IsDigit(digits[i])) && Delimited(x)
    ensures LeadingDigits(digits + x) == |digits|
  {
    if digits == "" {
      assert digits + x == x;
    } else {
      assert (digits + x)[1..] == digits[1..] + x;
      DigitsLead(digits[1..], x);
    }
  }

  lemma DigitsApart(m: nat, n: nat, x: string, y: string)
    requires Delimited(x) && Delimited(y) && Digits(m) + x == Digits(n) + y
    ensures m == n && x == y
  {
    DigitsRead(m);
    DigitsRead(n);
    DigitsLead(Digits(m), x);
    DigitsLead(Digits(n), y);
    SamePrefix(Digits(m), Digits(n), x, y);
  }

  lemma SamePrefix(a: string, b: string, x: string, y: string)
    requires a + x == b + y && |a| == |b|
    ensures a == b && x == y
  {
    assert a == (a + x)[..|a|] && b == (b + y)[..|b|];
    assert x == (a + x)[|a|..] && y == (b + y)[|b|..];
  }

  // ------------------------------------------------------------------
  // Reading back: strings
  // ------------------------------------------------------------------

  function Unhex(c: char): int {
    if c <= '9' then c as int - '0' as int else c as int - 'a' as int + 10
  }

  function Ununit(s: string): int
    requires |s| >= 6
  {
    0x1000 * Unhex(s[2]) + 0x100 * Unhex(s[3]) + 0x10 * Unhex(s[4]) + Unhex(s[5])
  }

  lemma HexRead(d: nat)
    requires d < 16
    ensures Unhex(Hex(d)) == d && ' ' < Hex(d) <= '~'
  {
  }

  lemma UnitRead(n: nat, x: string)
    requires n < 0x10000
    ensures |Unit(n)| == 6 && Ununit(Unit(n) + x) == n
  {
    HexRead(n / 0x1000);
    HexRead(n / 0x100 % 0x10);
    HexRead(n / 0x10 % 0x10);
    HexRead(n % 0x10);
    HexSum(n);
  }

  lemma HexSum(n: nat)
    ensures n == 0x1000 * (n / 0x1000) + 0x100 * (n / 0x100 % 0x10) + 0x10 * (n / 0x10 % 0x10) + n % 0x10
  {
    assert n / 0x1000 == n / 0x100 / 0x10 && n / 0x100 == n / 0x10 / 0x10;
  }

  predicate IsUnit(c: char) {
    !Verbatim(c) && Short(c).None?
  }

  // How an escape starts tells its kind.
  lemma EscapeKind(c: char, x: string)
    ensures var s := Escape(c) + x;
            && s != "" && s[0] != '"' && (Verbatim(c) <==> s[0] != '\\')
            && (Verbatim(c) ==> s[0] == c && s[1..] == x)
            && (!Verbatim(c) ==> |s| > 1 && (IsUnit(c) <==> s[1] == 'u'))
            && (!Verbatim(c) && !IsUnit(c) ==> Some(s[1]) == Short(c) && s[2..] == x)
            && (IsUnit(c) ==> |s| >= 6)
  {
  }

  lemma UnitKind(c: char, x: string)
    requires IsUnit(c)
    ensures var s := Escape(c) + x;
            && |s| >= 6
            && (c as int < 0x10000 ==> Ununit(s) == c as int && s[6..] == x)
            && (c as int >= 0x10000 ==>
                  && 0xD800 <= Ununit(s) < 0xDC00 && |s| >= 12
                  && c as int == 0x10000 + 0x400 * (Ununit(s) - 0xD800) + (Ununit(s[6..]) - 0xDC00)
                  && s[12..] == x)
  {
    var n := c as int;
    if n < 0x10000 {
      UnitRead(n, x);
    } else {
      var high, low := 0xD800 + (n - 0x10000) / 0x400, 0xDC00 + (n - 0x10000) % 0x400;
      UnitRead(high, Unit(low) + x);
      UnitRead(low, x);
      assert Escape(c) + x == Unit(high) + (Unit(low) + x);
      assert (Unit(high) + (Unit(low) + x))[6..] == Unit(low) + x;
    }
  }

  lemma EscapeApart(c: char, d: char, x: string, y: string)
    requires Escape(c) + x == Escape(d) + y
    ensures c == d && x == y
  {
    EscapeKind(c, x);
    EscapeKind(d, y);
    if IsUnit(c) {
      UnitKind(c, x);
      UnitKind(d, y);
    }
  }

  // A closing quote is no escape.
  lemma ClosingQuote(s: string, x: string)
    ensures Escapes(s) + ("\"" + x) != ""
    ensures (Escapes(s) + ("\"" + x))[0] == '"' <==> s == ""
  {
    if s == "" {
      assert Escapes(s) + ("\"" + x) == "\"" + x;
    } else {
      FirstEscape(s, "\"" + x);
      EscapeKind(s[0], Escapes(s[1..]) + ("\"" + x));
    }
  }

  lemma FirstEscape(s: string, rest: string)
    requires s != ""
    ensures Escapes(s) + rest == Escape(s[0]) + (Escapes(s[1..]) + rest)
  {
  }

  lemma {:induction false} EscapesApart(s: string, t: string, x: string, y: string)
    requires Escapes(s) + ("\"" + x) == Escapes(t) + ("\"" + y)
    ensures s == t && x == y
  {
    ClosingQuote(s, x);
    ClosingQuote(t, y);
    if s == "" {
      assert "" + ("\"" + x) == "\"" + x && "" + ("\"" + y) == "\"" + y;
      SamePrefix("\"", "\"", x, y);
    } else {
      FirstEscape(s, "\"" + x);
      FirstEscape(t, "\"" + y);
      EscapeApart(s[0], t[0], Escapes(s[1..]) + ("\"" + x), Escapes(t[1..]) + ("\"" + y));
      EscapesApart(s[1..], t[1..], x, y);
      assert s == [s[0]] + s[1..] && t == [t[0]] + t[1..];
    }
  }

  lemma QuotedApart(s: string, t: string, x: string, y: string)
    requires Quoted(s) + x == Quoted(t) + y
    ensures s == t && x == y
  {
    assert Quoted(s) + x == "\"" + (Escapes(s) + ("\"" + x));
    assert Quoted(t) + y == "\"" + (Escapes(t) + ("\"" + y));
    SamePrefix("\"", "\"", Escapes(s) + ("\"" + x), Escapes(t) + ("\"" + y));
    EscapesApart(s, t, x, y);
  }

  // ------------------------------------------------------------------
  // Reading back: values
  // ------------------------------------------------------------------

  // The first character tells what kind of value is written.
  function Kind(c: char): nat {
    if c == 'n' then 0 else if c == 't' || c == 'f' then 1 else if c == '"' then 3
    else if c == '[' then 4 else if c == '{' then 5 else if c == '-' || IsDigit(c) then 2 else 6
  }

  function KindOf(v: Json): nat {
    match v
    case Null => 0
    case Bool(_) => 1
    case Int(_) => 2
    case Float(_, _) => 6
    case Str(_) => 3
    case Arr(_) => 4
    case Obj(_) => 5
  }

  lemma FirstTells(v: Json, x: string)
    requires !v.Float?
    ensures Write(v) + x != "" && Kind((Write(v) + x)[0]) == KindOf(v) && KindOf(v) < 6
  {
    if v.Int? {
      DigitsRead(if v.n < 0 then -v.n else v.n);
    }
  }

  lemma {:induction false} WriteApart(a: Json, b: Json, x: string, y: string)
    requires Exact(a) && Exact(b) && Delimited(x) && Delimited(y) && Write(a) + x == Write(b) + y
    ensures a == b && x == y
    decreases a
  {
    FirstTells(a, x);
    FirstTells(b, y);
    match a
    case Null => SamePrefix("null", "null", x, y);
    case Bool(_) => BoolsApart(a.b, b.b, x, y);
    case Int(_) => IntsApart(a.n, b.n, x, y);
    case Str(_) => QuotedApart(a.s, b.s, x, y);
    case Arr(items) =>
      Unbracket("[", WriteItems(items, true), WriteItems(b.items, true), x, y);
      ItemsApart(items, b.items, true, x, y);
    case Obj(fields) =>
      Unbracket("{", WriteFields(fields, true), WriteFields(b.fields, true), x, y);
      FieldsApart(fields, b.fields, true, x, y);
  }

  lemma Unbracket(open_: string, s: string, t: string, x: string, y: string)
    requires open_ + s + x == open_ + t + y
    ensures s + x == t + y
  {
    assert open_ + s + x == open_ + (s + x) && open_ + t + y == open_ + (t + y);
    SamePrefix(open_, open_, s + x, t + y);
  }

  lemma BoolsApart(a: bool, b: bool, x: string, y: string)
    requires Write(Bool(a)) + x == Write(Bool(b)) + y
    ensures a == b && x == y
  {
    assert (Write(Bool(a)) + x)[0] == Write(Bool(a))[0] && (Write(Bool(b)) + y)[0] == Write(Bool(b))[0];
    SamePrefix(Write(Bool(a)), Write(Bool(b)), x, y);
  }

  lemma IntsApart(m: int, n: int, x: string, y: string)
    requires Delimited(x) && Delimited(y) && Decimal(m) + x == Decimal(n) + y
    ensures m == n && x == y
  {
    var p, q := if m < 0 then -m else m, if n < 0 then -n else n;
    DigitsRead(p);
    DigitsRead(q);
    assert (Decimal(m) + x)[0] == Decimal(m)[0] && (Decimal(n) + y)[0] == Decimal(n)[0];
    assert (m < 0) == (n < 0);
    if m < 0 {
      Unbracket("-", Digits(p), Digits(q), x, y);
    }
    DigitsApart(p, q, x, y);
  }

  lemma Regroup(v: string, s: string, x: string)
    ensures v + s + x == v + (s + x)
  {
  }

  lemma ItemsFirst(items: seq<Json>, first: bool, x: string)
    requires forall i :: 0 <= i < |items| ==> Exact(items[i])
    ensures WriteItems(items, first) + x != ""
    ensures (WriteItems(items, first) + x)[0] == ']' <==> items == []
    ensures !first ==> Delimited(WriteItems(items, first) + x)
  {
    if items == [] {
    } else {
      assert Exact(items[0]);
      FirstTells(items[0], "");
      assert Write(items[0]) + "" == Write(items[0]);
    }
  }

  lemma {:induction false} ItemsApart(a: seq<Json>, b: seq<Json>, first: bool, x: string, y: string)
    requires (forall i :: 0 <= i < |a| ==> Exact(a[i])) && (forall i :: 0 <= i < |b| ==> Exact(b[i]))
    requires WriteItems(a, first) + x == WriteItems(b, first) + y
    ensures a == b && x == y
    decreases a
  {
    ItemsFirst(a, first, x);
    ItemsFirst(b, first, y);
    if a == [] {
      SamePrefix("]", "]", x, y);
    } else {
      var s, t := WriteItems(a[1..], false), WriteItems(b[1..], false);
      ItemsFirst(a[1..], false, x);
      ItemsFirst(b[1..], false, y);
      Unbracket(Comma(first), Write(a[0]) + s, Write(b[0]) + t, x, y);
      Regroup(Write(a[0]), s, x);
      Regroup(Write(b[0]), t, y);
      WriteApart(a[0], b[0], s + x, t + y);
      ItemsApart(a[1..], b[1..], false, x, y);
    }
  }

  lemma FieldsFirst(fields: seq<Field>, first: bool, x: string)
    ensures WriteFields(fields, first) + x != ""
    ensures (WriteFields(fields, first) + x)[0] == '}' <==> fields == []
    ensures !first ==> Delimited(WriteFields(fields, first) + x)
  {
  }

  lemma {:induction false} FieldsApart(a: seq<Field>, b: seq<Field>, first: bool, x: string, y: string)
    requires (forall i :: 0 <= i < |a| ==> Exact(a[i].value)) && (forall i :: 0 <= i < |b| ==> Exact(b[i].value))
    requires WriteFields(a, first) + x == WriteFields(b, first) + y
    ensures a == b && x == y
    decreases a
  {
    FieldsFirst(a, first, x);
    FieldsFirst(b, first, y);
    if a == [] {
      SamePrefix("}", "}", x, y);
    } else {
      var s, t := WriteFields(a[1..], false), WriteFields(b[1..], false);
      FieldsFirst(a[1..], false, x);
      FieldsFirst(b[1..], false, y);
      var v, w := Write(a[0].value), Write(b[0].value);
      Unbracket(Comma(first), Quoted(a[0].key) + (":" + (v + s)), Quoted(b[0].key) + (":" + (w + t)), x, y);
      Inward(Quoted(a[0].key), v, s, x);
      Inward(Quoted(b[0].key), w, t, y);
      QuotedApart(a[0].key, b[0].key, ":" + (v + (s + x)), ":" + (w + (t + y)));
      SamePrefix(":", ":", v + (s + x), w + (t + y));
      WriteApart(a[0].value, b[0].value, s + x, t + y);
      FieldsApart(a[1..], b[1..], false, x, y);
    }
  }

  lemma Inward(key: string, v: string, s: string, x: string)
    ensures key + (":" + (v + s)) + x == key + (":" + (v + (s + x)))
  {
    Regroup(v, s, x);
    assert ":" + (v + s) + x == ":" + (v + (s + x));
  }

  // No two values are written alike.
  lemma WriteInjective(a: Json, b: Json)
    requires Exact(a) && Exact(b) && Write(a) == Write(b)
    ensures a == b
  {
    assert Write(a) + "" == Write(a) && Write(b) + "" == Write(b);
    WriteApart(a, b, "", "");
  }

  // ------------------------------------------------------------------
  // What the text looks like
  // ------------------------------------------------------------------

  predicate Printable(s: string) {
    forall i :: 0 <= i < |s| ==> ' ' <= s[i] <= '~'
  }

  lemma EscapePrintable(c: char)
    ensures Printable(Escape(c))
  {
    if !IsUnit(c) {
    } else if c as int < 0x10000 {
      UnitPrintable(c as int);
    } else {
      UnitPrintable(0xD800 + (c as int - 0x10000) / 0x400);
      UnitPrintable(0xDC00 + (c as int - 0x10000) % 0x400);
    }
  }

  lemma UnitPrintable(n: nat)
    requires n < 0x10000
    ensures Printable(Unit(n))
  {
    HexRead(n / 0x1000);
    HexRead(n / 0x100 % 0x10);
    HexRead(n / 0x10 % 0x10);
    HexRead(n % 0x10);
  }

  lemma {:induction false} EscapesPrintable(s: string)
    ensures Printable(Escapes(s))
  {
    if s == "" {
    } else {
      EscapePrintable(s[0]);
      EscapesPrintable(s[1..]);
    }
  }

  lemma BothPrintable(a: string, b: string)
    requires Printable(a) && Printable(b)
    ensures Printable(a + b)
  {
  }

  lemma QuotedPrintable(s: string)
    ensures Printable(Quoted(s))
  {
    EscapesPrintable(s);
    BothPrintable(Escapes(s), "\"");
    BothPrintable("\"", Escapes(s) + "\"");
  }

  lemma {:induction false} WritePrintable(v: Json)
    ensures Printable(Write(v))
    decreases v
  {
    match v
    case Int(n) => DigitsRead(if n < 0 then -n else n);
    case Str(s) => QuotedPrintable(s);
    case Arr(items) =>
      ItemsPrintable(items, true);
      BothPrintable("[", WriteItems(items, true));
    case Obj(fields) =>
      FieldsPrintable(fields, true);
      BothPrintable("{", WriteFields(fields, true));
    case _ =>
  }

  lemma {:induction false} ItemsPrintable(items: seq<Json>, first: bool)
    ensures Printable(WriteItems(items, first))
    decreases items
  {
    if items == [] {
    } else {
      var rest := WriteItems(items[1..], false);
      WritePrintable(items[0]);
      ItemsPrintable(items[1..], false);
      BothPrintable(Write(items[0]), rest);
      BothPrintable(Comma(first), Write(items[0]) + rest);
    }
  }

  lemma {:induction false} FieldsPrintable(fields: seq<Field>, first: bool)
    ensures Printable(WriteFields(fields, first))
    decreases fields
  {
    if fields == [] {
    } else {
      var value, rest := Write(fields[0].value), WriteFields(fields[1..], false);
      QuotedPrintable(fields[0].key);
      WritePrintable(fields[0].value);
      FieldsPrintable(fields[1..], false);
      BothPrintable(value, rest);
      BothPrintable(":", value + rest);
      BothPrintable(Quoted(fields[0].key), ":" + (value + rest));
      BothPrintable(Comma(first), Quoted(fields[0].key) + (":" + (value + rest)));
    }
  }

  // Text without anything to escape stands for itself.
  lemma {:induction false} EscapesVerbatim(s: string)
    requires forall i :: 0 <= i < |s| ==> Verbatim(s[i])
    ensures Escapes(s) == s
  {
    if s == "" {
    } else {
      EscapesVerbatim(s[1..]);
      assert s == [s[0]] + s[1..];
    }
  }
}
