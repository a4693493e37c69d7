/**
 Tier routing rewrites the conversation it is shown; this file is about getting the
 client's own messages back out of the rewritten one.  Rows are normalised, the
 captured rows are matched greedily against them, and what matches nothing must be
 plain text.
 */
module Routing {
  import opened Wrappers
  import opened JsonValues
  import opened Validation
  import opened Matching

  datatype RouteError =
    | UnsupportedContent | InvalidToolArguments | InvalidRequest   // status 400
    | UnsupportedRewrite | InvalidResult | RoutingFailed           // status 502

  type Loader = string -> Option<Json>

  // ------------------------------------------------------------------
  // Normalisation
  // ------------------------------------------------------------------

  function TextBlock(text: string): Json {
    Obj([Field("type", Str("text")), Field("text", Str(text))])
  }

  function TextOf(block: Json): string
    requires IsTextBlock(block)
  {
    Get(block, "text").value.s
  }

  function Content(value: Option<Json>): Result<seq<Json>, RouteError> {
    match value
    case None | Some(Null) => Ok([])
    case Some(Str(s)) => Ok([TextBlock(s)])
    case Some(Arr(items)) =>
      if AllTextBlocks(items)
      then Ok(seq(|items|, i requires 0 <= i < |items| => TextBlock(TextOf(items[i]))))
      else Err(UnsupportedContent)
    case Some(_) => Err(UnsupportedContent)
  }

  // What a `for` loop over the value visits, where each item must be a dictionary.
  function Items(value: Option<Json>): Option<seq<Json>> {
    match value
    case None => Some([])
    case Some(Arr(items)) => Some(items)
    case Some(Str(s)) => if s == "" then Some([]) else None
    case Some(Obj(fields)) => if fields == [] then Some([]) else None
    case Some(_) => None
  }

  function NormalCall(load: Loader, call: Json): Result<Json, RouteError> {
    match Get(call, "function")
    case None => Err(InvalidRequest)
    case Some(function_) =>
      match Get(function_, "arguments")
      case Some(Str(text)) =>
        (match load(text)
         case None => Err(InvalidRequest)
         case Some(arguments) =>
           if !arguments.Obj? then Err(InvalidToolArguments)
           else if !HasKey(call, "id") || !HasKey(function_, "name") then Err(InvalidRequest)
           else Ok(Obj([Field("type", Str("tool_call")), Field("id", Get(call, "id").value),
                        Field("name", Get(function_, "name").value), Field("arguments", arguments)])))
      case _ => Err(InvalidRequest)
  }

  function NormalCalls(load: Loader, calls: seq<Json>): Result<seq<Json>, RouteError> {
    if calls == [] then Ok([])
    else
      match NormalCall(load, calls[0])
      case Err(e) => Err(e)
      case Ok(first) =>
        match NormalCalls(load, calls[1..])
        case Err(e) => Err(e)
        case Ok(rest) => Ok([first] + rest)
  }

  function Normal(load: Loader, message: Json): Result<Json, RouteError> {
    match Get(message, "role")
    case None => Err(InvalidRequest)
    case Some(role) =>
      match Content(Get(message, "content"))
      case Err(e) => Err(e)
      case Ok(texts) =>
        if role == Str("assistant") then
          match Items(Get(message, "tool_calls"))
          case None => Err(InvalidRequest)
          case Some(calls) =>
            match NormalCalls(load, calls)
            case Err(e) => Err(e)
            case Ok(blocks) => Ok(Row(role, texts + blocks))
        else if role == Str("tool") then
          match Get(message, "tool_call_id")
          case None => Err(InvalidRequest)
          case Some(id) =>
            Ok(Row(role, [Obj([Field("type", Str("tool_result")), Field("tool_call_id", id),
                               Field("content", Arr(texts)), Field("is_error", Null)])]))
        else Ok(Row(role, texts))
  }

  function Row(role: Json, content: seq<Json>): Json {
    Obj([Field("role", role), Field("content", Arr(content))])
  }

  // _normalize, appending one block per call
  method Normalize(load: Loader, message: Json) returns (r: Result<Json, RouteError>)
    ensures r == Normal(load, message)
  {
    if !HasKey(message, "role") {
      return Err(InvalidRequest);
    }
    var role := Get(message, "role").value;
    var texts := Content(Get(message, "content"));
    if texts.Err? {
      return Err(texts.error);
    }
    var content := texts.value;
    if role == Str("assistant") {
      var items := Items(Get(message, "tool_calls"));
      if items.None? {
        return Err(InvalidRequest);
      }
      var calls := items.value;
      assert calls[0..] == calls;
      for n := 0 to |calls|
        invariant match NormalCalls(load, calls[n..])
                  case Err(e) => NormalCalls(load, calls) == Err(e)
                  case Ok(rest) => NormalCalls(load, calls).Ok? && texts.value + NormalCalls(load, calls).value == content + rest
      {
        assert calls[n..][0] == calls[n] && calls[n..][1..] == calls[n + 1..];
        var block := NormalCall(load, calls[n]);
        if block.Err? {
          return Err(block.error);
        }
        content := content + [block.value];
      }
      assert calls[|calls|..] == [] && NormalCalls(load, calls[|calls|..]) == Ok([]);
      assert content == texts.value + NormalCalls(load, calls).value;
    }
    if role == Str("tool") {
      if !HasKey(message, "tool_call_id") {
        return Err(InvalidRequest);
      }
      content := [Obj([Field("type", Str("tool_result")), Field("tool_call_id", Get(message, "tool_call_id").value),
                       Field("content", Arr(content)), Field("is_error", Null)])];
    }
    return Ok(Row(role, content));
  }

  // ------------------------------------------------------------------
  // What a normal form is
  // ------------------------------------------------------------------

  predicate IsText(block: Json, text: Json) {
    Get(block, "type") == Some(Str("text")) && Get(block, "text") == Some(text)
  }

  // Nothing, a text or a list of text blocks makes as many text blocks.
  ghost predicate Texts(content: Option<Json>, blocks: seq<Json>) {
    if content.None? || content.value.Null? then blocks == []
    else if content.value.Str? then |blocks| == 1 && IsText(blocks[0], content.value)
    else
      && content.value.Arr? && |blocks| == |content.value.items|
      && forall i :: 0 <= i < |blocks| ==> Get(content.value.items[i], "text").Some?
                                           && IsText(blocks[i], Get(content.value.items[i], "text").value)
  }

  lemma ContentExactly(content: Option<Json>)
    ensures Content(content).Ok? <==>
            || content.None? || content.value.Null? || content.value.Str?
            || (content.value.Arr? && forall i :: 0 <= i < |content.value.items| ==> TextBlockIn(content.value.items[i]))
    ensures if Content(content).Ok? then Texts(content, Content(content).value) else Content(content).error == UnsupportedContent
  {
    if Content(content).Ok? {
      var blocks := Content(content).value;
      forall i | 0 <= i < |blocks|
        ensures IsText(blocks[i], if content.value.Str? then content.value else Get(content.value.items[i], "text").value)
      {
        var text := if content.value.Str? then content.value else Get(content.value.items[i], "text").value;
        assert blocks[i] == TextBlock(text.s);
        TwoFields("type", Str("text"), "text", text);
      }
    }
  }

  lemma TwoFields(a: string, x: Json, b: string, y: Json)
    requires a != b
    ensures var v := Obj([Field(a, x), Field(b, y)]);
            Get(v, a) == Some(x) && Get(v, b) == Some(y)
  {
    var fields := [Field(a, x), Field(b, y)];
    LookupAt(fields, 0);
    LookupAt(fields, 1);
  }

  lemma FourFields(a: string, x: Json, b: string, y: Json, c: string, z: Json, d: string, w: Json)
    requires a != b && a != c && a != d && b != c && b != d && c != d
    ensures var v := Obj([Field(a, x), Field(b, y), Field(c, z), Field(d, w)]);
            Get(v, a) == Some(x) && Get(v, b) == Some(y) && Get(v, c) == Some(z) && Get(v, d) == Some(w)
  {
    var fields := [Field(a, x), Field(b, y), Field(c, z), Field(d, w)];
    LookupAt(fields, 0);
    LookupAt(fields, 1);
    LookupAt(fields, 2);
    LookupAt(fields, 3);
  }

  predicate TextBlockIn(block: Json) {
    block.Obj? && Get(block, "type") == Some(Str("text")) && Get(block, "text").Some? && Get(block, "text").value.Str?
  }

  // A call of a function whose arguments are the text of an object
  predicate GoodCall(load: Loader, call: Json) {
    && HasKey(call, "id") && HasKey(call, "function") && HasKey(Get(call, "function").value, "name")
    && ArgumentsOf(load, call).Some? && ArgumentsOf(load, call).value.Obj?
  }

  // The arguments of a call, if they are text that can be loaded
  function ArgumentsOf(load: Loader, call: Json): Option<Json> {
    if !HasKey(call, "function") then None
    else
      match Get(Get(call, "function").value, "arguments")
      case Some(Str(text)) => load(text)
      case _ => None
  }

  // A good call becomes a block with its identifier, its name and its loaded arguments.
  lemma CallExactly(load: Loader, call: Json)
    ensures NormalCall(load, call).Ok? <==> GoodCall(load, call)
    ensures if GoodCall(load, call) then
              var block := NormalCall(load, call).value;
              && Get(block, "type") == Some(Str("tool_call")) && Get(block, "id") == Get(call, "id")
              && Get(block, "name") == Get(Get(call, "function").value, "name")
              && Get(block, "arguments") == ArgumentsOf(load, call)
            else NormalCall(load, call).error
                 == if ArgumentsOf(load, call).Some? && !ArgumentsOf(load, call).value.Obj? then InvalidToolArguments
                    else InvalidRequest
  {
    if GoodCall(load, call) {
      FourFields("type", Str("tool_call"), "id", Get(call, "id").value,
                 "name", Get(Get(call, "function").value, "name").value, "arguments", ArgumentsOf(load, call).value);
    }
  }

  // Calls normalise one by one, in order, up to the first that is not good.
  lemma {:induction false} CallsExactly(load: Loader, calls: seq<Json>)
    ensures NormalCalls(load, calls).Ok? <==> forall k :: 0 <= k < |calls| ==> GoodCall(load, calls[k])
    ensures NormalCalls(load, calls).Ok? ==> |NormalCalls(load, calls).value| == |calls|
    ensures NormalCalls(load, calls).Ok? ==>
              forall k :: 0 <= k < |calls| ==> NormalCall(load, calls[k]) == Ok(NormalCalls(load, calls).value[k])
    ensures NormalCalls(load, calls).Err? ==>
              exists k :: 0 <= k < |calls| && NormalCall(load, calls[k]) == Err(NormalCalls(load, calls).error)
                          && forall j :: 0 <= j < k ==> GoodCall(load, calls[j])
  {
    if calls == [] {
    } else {
      var rest := calls[1..];
      CallExactly(load, calls[0]);
      CallsExactly(load, rest);
      assert forall k :: 1 <= k < |calls| ==> calls[k] == rest[k - 1];
      if NormalCall(load, calls[0]).Ok? && NormalCalls(load, rest).Err? {
        var k :| 0 <= k < |rest| && NormalCall(load, rest[k]) == Err(NormalCalls(load, rest).error)
                 && forall j :: 0 <= j < k ==> GoodCall(load, rest[j]);
        assert calls[k + 1] == rest[k];
        assert forall j :: 1 <= j < k + 1 ==> calls[j] == rest[j - 1];
      }
    }
  }

  // A normal form has the role of the message and its texts; behind them, for an assistant,
  // one block for each call, in order; and for a tool all of them wrapped up in a result.
  ghost predicate NormalForm(load: Loader, message: Json, normal: Json) {
    && Get(normal, "role") == Get(message, "role")
    && Get(normal, "content").Some? && Get(normal, "content").value.Arr?
    && var role, blocks := Get(message, "role"), Get(normal, "content").value.items;
       if role == Some(Str("tool")) then
         && |blocks| == 1 && Get(blocks[0], "type") == Some(Str("tool_result"))
         && Get(blocks[0], "tool_call_id") == Get(message, "tool_call_id") && Get(blocks[0], "is_error") == Some(Null)
         && Get(blocks[0], "content").Some? && Get(blocks[0], "content").value.Arr?
         && Texts(Get(message, "content"), Get(blocks[0], "content").value.items)
       else if role == Some(Str("assistant")) then
         && Items(Get(message, "tool_calls")).Some?
         && var calls := Items(Get(message, "tool_calls")).value;
            && |calls| <= |blocks| && Texts(Get(message, "content"), blocks[..|blocks| - |calls|])
            && forall k :: 0 <= k < |calls| ==> NormalCall(load, calls[k]) == Ok(blocks[|blocks| - |calls| + k])
       else Texts(Get(message, "content"), blocks)
  }

  // Which messages have one, and what is wrong with the others
  lemma NormalExactly(load: Loader, message: Json)
    ensures var role, normal := Get(message, "role"), Normal(load, message);
            var calls := if role == Some(Str("assistant")) then Items(Get(message, "tool_calls")) else Some([]);
            && (normal.Ok? <==>
                  && role.Some? && Content(Get(message, "content")).Ok?
                  && calls.Some? && (forall k :: 0 <= k < |calls.value| ==> GoodCall(load, calls.value[k]))
                  && (role == Some(Str("tool")) ==> HasKey(message, "tool_call_id")))
            && (normal.Ok? ==> NormalForm(load, message, normal.value))
            && (normal.Err? ==>
                  normal.error
                  == if role.None? then InvalidRequest
                     else if Content(Get(message, "content")).Err? then UnsupportedContent
                     else if calls.Some? && NormalCalls(load, calls.value).Err? then NormalCalls(load, calls.value).error
                     else InvalidRequest)
  {
    var role, content := Get(message, "role"), Content(Get(message, "content"));
    ContentExactly(Get(message, "content"));
    if role == Some(Str("assistant")) {
      AssistantExactly(load, message);
    } else if Normal(load, message).Ok? {
      var blocks := Get(Normal(load, message).value, "content");
      RowFields(role.value, Normal(load, message).value.fields[1].value.items);
      if role == Some(Str("tool")) {
        FourFields("type", Str("tool_result"), "tool_call_id", Get(message, "tool_call_id").value,
                   "content", Arr(content.value), "is_error", Null);
      }
    }
  }

  lemma RowFields(role: Json, blocks: seq<Json>)
    ensures Get(Row(role, blocks), "role") == Some(role) && Get(Row(role, blocks), "content") == Some(Arr(blocks))
  {
    TwoFields("role", role, "content", Arr(blocks));
  }

  lemma AssistantExactly(load: Loader, message: Json)
    requires Get(message, "role") == Some(Str("assistant"))
    ensures var normal, calls := Normal(load, message), Items(Get(message, "tool_calls"));
            && (normal.Ok? <==>
                  && Content(Get(message, "content")).Ok? && calls.Some?
                  && forall k :: 0 <= k < |calls.value| ==> GoodCall(load, calls.value[k]))
            && (normal.Ok? ==> NormalForm(load, message, normal.value))
  {
    var content, calls := Content(Get(message, "content")), Items(Get(message, "tool_calls"));
    ContentExactly(Get(message, "content"));
    if calls.Some? {
      CallsExactly(load, calls.value);
      if content.Ok? && NormalCalls(load, calls.value).Ok? {
        var blocks := content.value + NormalCalls(load, calls.value).value;
        assert blocks[..|blocks| - |calls.value|] == content.value;
        RowFields(Str("assistant"), blocks);
      }
    }
  }

  // Whatever ingress accepts can be normalised, given the same loader.
  lemma ValidMessagesNormalize(load: Loader, payload: Json)
    requires Validate(load, payload).Ok?
    ensures var messages := Get(payload, "messages");
            && messages.Some? && messages.value.Arr? && messages.value.items != []
            && forall i :: 0 <= i < |messages.value.items| ==> Normal(load, messages.value.items[i]).Ok?
  {
    var items := Get(payload, "messages").value.items;
    ValidateAll(load, items);
    forall i | 0 <= i < |items|
      ensures Normal(load, items[i]).Ok?
    {
      assert ValidateMessage(load, items[i]).Ok?;
      ValidMessageNormalizes(load, items[i]);
    }
  }

  lemma ValidMessageNormalizes(load: Loader, message: Json)
    requires ValidateMessage(load, message).Ok?
    ensures Normal(load, message).Ok?
  {
    if HasKey(message, "tool_calls") {
      var calls := Get(message, "tool_calls").value.items;
      ValidCallsNormalize(load, calls);
    }
  }

  lemma {:induction false} ValidCallsNormalize(load: Loader, calls: seq<Json>)
    requires forall i :: 0 <= i < |calls| ==> ValidCall(load, calls[i])
    ensures NormalCalls(load, calls).Ok?
  {
    if calls == [] {
    } else {
      assert ValidCall(load, calls[0]);
      ValidCallsNormalize(load, calls[1..]);
    }
  }

  // ------------------------------------------------------------------
  // Restoring rows the router generated itself
  // ------------------------------------------------------------------

  predicate Textual(block: Json) {
    Get(block, "type").Some? && Canonical(Get(block, "type").value) == CStr("text")
  }

  // Does the scan of the blocks stop at one that is a dictionary but no text?
  predicate HasForeignBlock(blocks: seq<Json>) {
    blocks != [] && blocks[0].Obj? && (!Textual(blocks[0]) || HasForeignBlock(blocks[1..]))
  }

  predicate AllTextual(blocks: seq<Json>) {
    forall i :: 0 <= i < |blocks| ==> Textual(blocks[i]) && Get(blocks[i], "text").Some? && Get(blocks[i], "text").value.Str?
  }

  function JoinTexts(blocks: seq<Json>): string
    requires AllTextual(blocks)
  {
    if blocks == [] then ""
    else if |blocks| == 1 then Get(blocks[0], "text").value.s
    else Get(blocks[0], "text").value.s + "\n" + JoinTexts(blocks[1..])
  }

  function Restored(row: Json): Result<Json, RouteError> {
    var blocks := Items(Get(row, "content"));
    if !row.Obj? || blocks.None? then Err(RoutingFailed)
    else if HasForeignBlock(blocks.value) then Err(UnsupportedRewrite)
    else if !HasKey(row, "role") || !AllTextual(blocks.value) then Err(RoutingFailed)
    else Ok(Obj([Field("role", Get(row, "role").value), Field("content", Str(JoinTexts(blocks.value)))]))
  }

  // Restoring succeeds for text-only rows with a role and for no others.
  predicate TextOnly(row: Json) {
    && HasKey(row, "role")
    && var blocks := Items(Get(row, "content"));
       blocks.Some? && AllTextual(blocks.value)
  }

  // What the values stand for that can be walked through: a list its items, and nothing,
  // an empty string and an empty object no items.
  lemma ItemsExactly(value: Option<Json>)
    ensures Items(value).Some? <==> value.None? || value.value.Arr? || value == Some(Str("")) || value == Some(Obj([]))
    ensures Items(value).Some? ==> Items(value).value == if value.Some? && value.value.Arr? then value.value.items else []
  {
  }

  predicate IsTextual(block: Json) {
    && Get(block, "type") == Some(Str("text"))
    && Get(block, "text").Some? && Get(block, "text").value.Str?
  }

  lemma TextualExactly(blocks: seq<Json>)
    ensures AllTextual(blocks) <==> forall i :: 0 <= i < |blocks| ==> IsTextual(blocks[i])
  {
    forall i | 0 <= i < |blocks|
      ensures Textual(blocks[i]) <==> Get(blocks[i], "type") == Some(Str("text"))
    {
      StringAlone(Get(blocks[i], "type"));
    }
  }

  lemma StringAlone(value: Option<Json>)
    ensures value.Some? && Canonical(value.value) == CStr("text") <==> value == Some(Str("text"))
  {
  }

  // A restored row has the role of the captured one, and for its content the texts of the
  // blocks, one per line.  It fails as unsupported if the first block that is no text is an
  // object, and otherwise as malformed.
  lemma RestoredExactly(row: Json)
    ensures Restored(row).Ok? <==> TextOnly(row)
    ensures Restored(row).Ok? ==>
              && Restored(row).value == Obj([Field("role", Get(row, "role").value),
                                             Field("content", Str(JoinTexts(Items(Get(row, "content")).value)))])
    ensures Restored(row).Err? ==>
              Restored(row).error
              == if row.Obj? && Items(Get(row, "content")).Some? && HasForeignBlock(Items(Get(row, "content")).value)
                 then UnsupportedRewrite else RoutingFailed
  {
    if TextOnly(row) {
      NoForeignBlock(Items(Get(row, "content")).value);
    }
  }

  lemma {:induction false} ForeignExactly(blocks: seq<Json>)
    ensures HasForeignBlock(blocks) <==>
              exists i :: 0 <= i < |blocks| && blocks[i].Obj? && Get(blocks[i], "type") != Some(Str("text"))
                          && forall j :: 0 <= j < i ==> blocks[j].Obj? && Get(blocks[j], "type") == Some(Str("text"))
  {
    if blocks == [] {
    } else {
      var rest := blocks[1..];
      ForeignExactly(rest);
      StringAlone(Get(blocks[0], "type"));
      assert forall i :: 1 <= i < |blocks| ==> blocks[i] == rest[i - 1];
      if HasForeignBlock(rest) && Textual(blocks[0]) {
        var i :| 0 <= i < |rest| && rest[i].Obj? && Get(rest[i], "type") != Some(Str("text"))
                 && forall j :: 0 <= j < i ==> rest[j].Obj? && Get(rest[j], "type") == Some(Str("text"));
        assert blocks[i + 1] == rest[i];
        assert forall j :: 1 <= j < i + 1 ==> blocks[j] == rest[j - 1];
      }
      if i :| 0 <= i < |blocks| && blocks[i].Obj? && Get(blocks[i], "type") != Some(Str("text"))
              && forall j :: 0 <= j < i ==> blocks[j].Obj? && Get(blocks[j], "type") == Some(Str("text")) {
        if i > 0 {
          assert rest[i - 1] == blocks[i];
          assert forall j :: 0 <= j < i - 1 ==> rest[j] == blocks[j + 1];
        }
      }
    }
  }

  // The texts of the blocks in order, with a LF between each two
  lemma {:induction false} JoinTextsApart(a: seq<Json>, b: seq<Json>)
    requires AllTextual(a) && AllTextual(b) && a != [] && b != []
    ensures AllTextual(a + b) && JoinTexts(a + b) == JoinTexts(a) + "\n" + JoinTexts(b)
  {
    assert AllTextual(a + b);
    if |a| == 1 {
      assert (a + b)[1..] == b;
    } else {
      assert (a + b)[1..] == a[1..] + b;
      JoinTextsApart(a[1..], b);
    }
  }

  lemma JoinTextsEnds(block: Json)
    requires AllTextual([block])
    ensures JoinTexts([]) == "" && Some(Str(JoinTexts([block]))) == Get(block, "text")
  {
    assert [block][0] == block;
  }

  lemma {:induction false} NoForeignBlock(blocks: seq<Json>)
    requires AllTextual(blocks)
    ensures !HasForeignBlock(blocks)
  {
    if blocks == [] {
    } else {
      assert Textual(blocks[0]);
      NoForeignBlock(blocks[1..]);
    }
  }

  // ------------------------------------------------------------------
  // The rewritten conversation
  // ------------------------------------------------------------------

  // A client message under the canonical form of its normalisation
  type Original = Keyed<Canon, Json>

  function Targets(rows: seq<Json>): (r: seq<Canon>)
    ensures |r| == |rows| && forall i :: 0 <= i < |r| ==> r[i] == Canonical(rows[i])
  {
    seq(|rows|, i requires 0 <= i < |rows| => Canonical(rows[i]))
  }

  // What stands at captured position p in the end
  function Place(items: seq<Original>, rows: seq<Json>, p: nat): Result<Json, RouteError>
    requires p < |rows|
  {
    if Matched(Keys(items), Targets(rows), p)
    then Ok(items[Source(Keys(items), Targets(rows), p)].value)
    else Restored(rows[p])
  }

  function Places(items: seq<Original>, rows: seq<Json>): (r: seq<Result<Json, RouteError>>)
    ensures |r| == |rows| && forall p :: 0 <= p < |rows| ==> r[p] == Place(items, rows, p)
  {
    seq(|rows|, p requires 0 <= p < |rows| => Place(items, rows, p))
  }

  function Restorations(rows: seq<Json>): (r: seq<Result<Json, RouteError>>)
    ensures |r| == |rows| && forall p :: 0 <= p < |rows| ==> r[p] == Restored(rows[p])
  {
    seq(|rows|, p requires 0 <= p < |rows| => Restored(rows[p]))
  }

  // Messages out of a captured request, said without the greedy loop
  function Rebuilt(items: seq<Original>, captured: Json): Result<seq<Json>, RouteError> {
    var instructions := Items(Get(captured, "instructions"));
    if !captured.Obj? || instructions.None? then Err(RoutingFailed)
    else
      match Collected(Restorations(instructions.value))
      case Err(e) => Err(e)
      case Ok(head) =>
        var rows := Items(Get(captured, "messages"));
        if !HasKey(captured, "messages") || rows.None? then Err(RoutingFailed)
        else Finished(items, head, rows.value)
  }

  function Finished(items: seq<Original>, head: seq<Json>, rows: seq<Json>): Result<seq<Json>, RouteError> {
    match Collected(Places(items, rows))
    case Err(e) => Err(e)
    case Ok(body) =>
      if multiset(Keys(items)) <= multiset(Targets(rows)) then Ok(head + body) else Err(UnsupportedRewrite)
  }

  method RestoreRows(rows: seq<Json>) returns (r: Result<seq<Json>, RouteError>)
    ensures r == Collected(Restorations(rows))
  {
    ghost var all := Restorations(rows);
    var rewritten: seq<Json> := [];
    for n := 0 to |rows|
      invariant Collected(all[..n]) == Ok(rewritten)
    {
      var row := Restored(rows[n]);
      if row.Err? {
        CollectedFails(all, n);
        return Err(row.error);
      }
      CollectedMore(all, n);
      rewritten := rewritten + [row.value];
    }
    assert all[..|rows|] == all;
    return Ok(rewritten);
  }

  // The greedy loop: each captured row pops the first remaining original that equals it.
  method MatchRows(items: seq<Original>, rows: seq<Json>) returns (r: Result<seq<Json>, RouteError>, remaining: seq<Original>)
    ensures r == Collected(Places(items, rows))
    ensures r.Ok? ==> remaining == Left(items, multiset(Targets(rows)))
  {
    ghost var all, targets := Places(items, rows), Targets(rows);
    var rewritten: seq<Json> := [];
    remaining := items;
    NothingTaken(items);
    for n := 0 to |rows|
      invariant Collected(all[..n]) == Ok(rewritten)
      invariant remaining == Left(items, multiset(targets[..n]))
    {
      Taken(items, targets, n);
      var match_ := FirstWith(remaining, Canonical(rows[n]));
      if match_.None? {
        var row := Restored(rows[n]);
        if row.Err? {
          CollectedFails(all, n);
          return Err(row.error), remaining;
        }
        CollectedMore(all, n);
        rewritten := rewritten + [row.value];
      } else {
        CollectedMore(all, n);
        rewritten := rewritten + [remaining[match_.value].value];
        remaining := Matching.Without(remaining, match_.value);
      }
    }
    assert all[..|rows|] == all && targets[..|rows|] == targets;
    return Ok(rewritten), remaining;
  }

  lemma Taken(items: seq<Original>, targets: seq<Canon>, n: nat)
    requires n < |targets|
    ensures var left := Left(items, multiset(targets[..n]));
            var next := Left(items, multiset(targets[..n + 1]));
            var found := FirstWith(left, targets[n]);
            if Matched(Keys(items), targets, n)
            then
              && found.Some?
              && left[found.value] == items[Source(Keys(items), targets, n)]
              && next == Matching.Without(left, found.value)
            else found.None? && next == left
  {
    assert targets[..n + 1] == targets[..n] + [targets[n]];
    assert multiset(targets[..n + 1]) == multiset(targets[..n]) + multiset{targets[n]};
    TakeNext(items, multiset(targets[..n]), targets[n]);
  }

  method Rebuild(items: seq<Original>, captured: Json) returns (r: Result<seq<Json>, RouteError>)
    ensures r == Rebuilt(items, captured)
  {
    var instructions := Items(Get(captured, "instructions"));
    if !captured.Obj? || instructions.None? {
      return Err(RoutingFailed);
    }
    var head := RestoreRows(instructions.value);
    if head.Err? {
      return head;
    }
    var rows := Items(Get(captured, "messages"));
    if !HasKey(captured, "messages") || rows.None? {
      return Err(RoutingFailed);
    }
    var body, remaining := MatchRows(items, rows.value);
    if body.Err? {
      return body;
    }
    NothingLeft(items, multiset(Targets(rows.value)));
    if remaining != [] {
      return Err(UnsupportedRewrite);
    }
    return Ok(head.value + body.value);
  }

  // ------------------------------------------------------------------
  // The whole of route
  // ------------------------------------------------------------------

  datatype Tier = Capable | Efficient

  // What the stage router did: raised, or sent these requests to its two targets
  datatype Staged = Raised | Ran(capable: seq<Json>, efficient: seq<Json>)

  datatype Routed = Routed(tier: Tier, request: Json)

  function Normals(load: Loader, messages: seq<Json>): (r: seq<Result<Json, RouteError>>)
    ensures |r| == |messages| && forall i :: 0 <= i < |r| ==> r[i] == Normal(load, messages[i])
  {
    seq(|messages|, i requires 0 <= i < |messages| => Normal(load, messages[i]))
  }

  function Zipped(normalized: seq<Json>, messages: seq<Json>): (r: seq<Original>)
    requires |normalized| == |messages|
    ensures |r| == |messages|
    ensures forall i :: 0 <= i < |r| ==> r[i] == Keyed(Canonical(normalized[i]), messages[i])
  {
    seq(|messages|, i requires 0 <= i < |messages| => Keyed(Canonical(normalized[i]), messages[i]))
  }

  // Exactly one request in all, and the tier that got it
  function Selected(staged: Staged): Option<(Tier, Json)> {
    if !staged.Ran? then None
    else if |staged.capable| == 1 && staged.efficient == [] then Some((Capable, staged.capable[0]))
    else if staged.capable == [] && |staged.efficient| == 1 then Some((Efficient, staged.efficient[0]))
    else None
  }

  method NormalizeAll(load: Loader, messages: seq<Json>) returns (r: Result<seq<Json>, RouteError>)
    ensures r == Collected(Normals(load, messages))
    ensures r.Ok? ==> |r.value| == |messages|
  {
    ghost var all := Normals(load, messages);
    var normalized: seq<Json> := [];
    for n := 0 to |messages|
      invariant Collected(all[..n]) == Ok(normalized)
    {
      var row := Normalize(load, messages[n]);
      if row.Err? {
        CollectedFails(all, n);
        return Err(row.error);
      }
      CollectedMore(all, n);
      normalized := normalized + [row.value];
    }
    assert all[..|messages|] == all;
    CollectedOk(all);
    return Ok(normalized);
  }

  // `stage` stands for the stage router: any function of the normalised conversation
  function RouteOf(load: Loader, stage: seq<Json> -> Staged, request: Json): Result<Routed, RouteError> {
    var messages := Items(Get(request, "messages"));
    if !HasKey(request, "messages") || messages.None? then Err(InvalidRequest)
    else
      match Collected(Normals(load, messages.value))
      case Err(e) => Err(e)
      case Ok(normalized) =>
        var staged := stage(normalized);
        if staged.Raised? then Err(RoutingFailed)
        else
          match Selected(staged)
          case None => Err(InvalidResult)
          case Some((tier, captured)) =>
            CollectedOk(Normals(load, messages.value));
            match Rebuilt(Zipped(normalized, messages.value), captured)
            case Err(e) => Err(e)
            case Ok(rewritten) => Ok(Routed(tier, Obj(Replace(request.fields, "messages", Arr(rewritten)))))
  }

  method Route(load: Loader, stage: seq<Json> -> Staged, request: Json) returns (r: Result<Routed, RouteError>)
    ensures r == RouteOf(load, stage, request)
  {
    var messages := Items(Get(request, "messages"));
    if !HasKey(request, "messages") || messages.None? {
      return Err(InvalidRequest);
    }
    var normalized := NormalizeAll(load, messages.value);
    if normalized.Err? {
      return Err(normalized.error);
    }
    var staged := stage(normalized.value);
    if staged.Raised? {
      return Err(RoutingFailed);
    }
    var selected := (if staged.capable != [] then [(Capable, staged.capable)] else [])
                  + (if staged.efficient != [] then [(Efficient, staged.efficient)] else []);
    if |selected| != 1 || |selected[0].1| != 1 {
      return Err(InvalidResult);
    }
    var (tier, requests) := selected[0];
    var rewritten := Rebuild(Zipped(normalized.value, messages.value), requests[0]);
    if rewritten.Err? {
      return Err(rewritten.error);
    }
    return Ok(Routed(tier, Obj(Replace(request.fields, "messages", Arr(rewritten.value)))));
  }

  // ------------------------------------------------------------------
  // When it succeeds, and what it keeps
  // ------------------------------------------------------------------

  predicate Listed(captured: Json) {
    && Items(Get(captured, "instructions")).Some?
    && HasKey(captured, "messages")
    && Items(Get(captured, "messages")).Some?
  }

  function Instructions(captured: Json): seq<Json>
    requires Listed(captured)
  {
    Items(Get(captured, "instructions")).value
  }

  function Rows(captured: Json): seq<Json>
    requires Listed(captured)
  {
    Items(Get(captured, "messages")).value
  }

  // Every original has its row; what is left over, like every instruction, is text.
  ghost predicate Accounted(items: seq<Original>, captured: Json) {
    && Listed(captured)
    && multiset(Keys(items)) <= multiset(Targets(Rows(captured)))
    && (forall k :: 0 <= k < |Instructions(captured)| ==> TextOnly(Instructions(captured)[k]))
    && (forall p: nat :: p < |Rows(captured)| && !Matched(Keys(items), Targets(Rows(captured)), p)
                     ==> TextOnly(Rows(captured)[p]))
  }

  // It succeeds exactly when the captured rows contain every normalised client row,
  // counted with repetition, and what is surplus, like every instruction, is text.
  lemma SuccessExactly(items: seq<Original>, captured: Json)
    ensures Rebuilt(items, captured).Ok? <==> Accounted(items, captured)
  {
    if Listed(captured) {
      InstructionsRestorable(Instructions(captured));
      var head := Collected(Restorations(Instructions(captured)));
      if head.Ok? { FinishedExactly(items, head.value, Rows(captured)); }
    }
  }

  lemma InstructionsRestorable(rows: seq<Json>)
    ensures Collected(Restorations(rows)).Ok? <==> forall k :: 0 <= k < |rows| ==> TextOnly(rows[k])
  {
    CollectedOk(Restorations(rows));
    forall k | 0 <= k < |rows|
      ensures Restorations(rows)[k].Ok? <==> TextOnly(rows[k])
    {
      RestoredExactly(rows[k]);
    }
  }

  lemma FinishedExactly(items: seq<Original>, head: seq<Json>, rows: seq<Json>)
    ensures Finished(items, head, rows).Ok? <==>
            && multiset(Keys(items)) <= multiset(Targets(rows))
            && forall p: nat :: p < |rows| && !Matched(Keys(items), Targets(rows), p) ==> TextOnly(rows[p])
  {
    CollectedOk(Places(items, rows));
    forall p: nat | p < |rows|
      ensures Places(items, rows)[p].Ok? <==> (Matched(Keys(items), Targets(rows), p) || TextOnly(rows[p]))
    {
      RestoredExactly(rows[p]);
    }
  }

  // The one request the router sent, to the target of that tier
  function Sent(tier: Tier, captured: Json): Staged {
    match tier
    case Capable => Ran([captured], [])
    case Efficient => Ran([], [captured])
  }

  // A request is routed exactly if every message normalises, the router sent one request
  // in all, and what it sent accounts for every message; the tier is that of the target
  // it was sent to, and nothing but the messages changes.
  lemma RoutesExactly(load: Loader, stage: seq<Json> -> Staged, request: Json)
    requires Validate(load, request).Ok?
    ensures var messages := Get(request, "messages").value.items;
            var normals := Collected(Normals(load, messages));
            && normals.Ok? && |normals.value| == |messages|
            && var items, staged, routed := Zipped(normals.value, messages), stage(normals.value), RouteOf(load, stage, request);
               && (routed.Ok? <==> exists tier, captured :: staged == Sent(tier, captured) && Accounted(items, captured))
               && (routed.Ok? ==> exists captured :: RoutedAs(request, items, staged, captured, routed.value))
  {
    var messages := ValidNormals(load, request);
    var normalized := Collected(Normals(load, messages)).value;
    var items, staged := Zipped(normalized, messages), stage(normalized);
    SelectedExactly(staged);
    if Selected(staged).Some? {
      var (tier, captured) := Selected(staged).value;
      SuccessExactly(items, captured);
      if Rebuilt(items, captured).Ok? {
        KeepsOthers(request, items, tier, captured, staged);
      }
    }
    SentIsSelected(items, staged);
  }

  lemma SentIsSelected(items: seq<Original>, staged: Staged)
    ensures (exists tier, captured :: staged == Sent(tier, captured) && Accounted(items, captured))
       <==> Selected(staged).Some? && Accounted(items, Selected(staged).value.1)
  {
    SelectedExactly(staged);
    if tier, captured :| staged == Sent(tier, captured) && Accounted(items, captured) {
      assert Selected(staged) == Some((tier, captured));
    }
    if Selected(staged).Some? {
      var (tier, captured) := Selected(staged).value;
      assert staged == Sent(tier, captured);
    }
  }

  lemma KeepsOthers(request: Json, items: seq<Original>, tier: Tier, captured: Json, staged: Staged)
    requires request.Obj? && HasKey(request, "messages") && staged == Sent(tier, captured) && Rebuilt(items, captured).Ok?
    ensures var after := Obj(Replace(request.fields, "messages", Arr(Rebuilt(items, captured).value)));
            RoutedAs(request, items, staged, captured, Routed(tier, after))
  {
    OthersKept(request, Rebuilt(items, captured).value);
  }

  ghost predicate RoutedAs(request: Json, items: seq<Original>, staged: Staged, captured: Json, routed: Routed) {
    && staged == Sent(routed.tier, captured) && Rebuilt(items, captured).Ok?
    && Get(routed.request, "messages") == Some(Arr(Rebuilt(items, captured).value))
    && forall key :: key != "messages" ==> Get(routed.request, key) == Get(request, key)
  }

  lemma SelectedExactly(staged: Staged)
    ensures forall tier, captured :: Selected(staged) == Some((tier, captured)) <==> staged == Sent(tier, captured)
  {
    forall tier, captured: Json
      ensures Selected(staged) == Some((tier, captured)) <==> staged == Sent(tier, captured)
    {
      if Selected(staged) == Some((tier, captured)) {
        if tier == Capable { assert staged.capable == [captured]; } else { assert staged.efficient == [captured]; }
      }
    }
  }

  lemma OthersKept(request: Json, messages: seq<Json>)
    requires request.Obj? && HasKey(request, "messages")
    ensures var after := Obj(Replace(request.fields, "messages", Arr(messages)));
            forall key :: Get(after, key) == if key == "messages" then Some(Arr(messages)) else Get(request, key)
  {
    forall key
      ensures Lookup(Replace(request.fields, "messages", Arr(messages)), key)
           == if key == "messages" then Some(Arr(messages)) else Lookup(request.fields, key)
    {
      LookupReplace(request.fields, "messages", Arr(messages), key);
    }
  }

  // The error of a request that is not routed: of the first message that does not
  // normalise, else for what the router did, else for what it left over.
  lemma RouteErrors(load: Loader, stage: seq<Json> -> Staged, request: Json, messages: seq<Json>)
    requires Get(request, "messages") == Some(Arr(messages))
    ensures forall i :: 0 <= i < |messages| && Normal(load, messages[i]).Err?
                        && (forall j :: 0 <= j < i ==> Normal(load, messages[j]).Ok?) ==>
              RouteOf(load, stage, request) == Err(Normal(load, messages[i]).error)
    ensures forall normalized :: Collected(Normals(load, messages)) == Ok(normalized) ==>
              && |normalized| == |messages|
              && (stage(normalized).Raised? ==> RouteOf(load, stage, request) == Err(RoutingFailed))
              && (stage(normalized).Ran? && |stage(normalized).capable| + |stage(normalized).efficient| != 1 ==>
                    RouteOf(load, stage, request) == Err(InvalidResult))
  {
    CollectedOk(Normals(load, messages));
    forall i | 0 <= i < |messages| && Normal(load, messages[i]).Err? && (forall j :: 0 <= j < i ==> Normal(load, messages[j]).Ok?)
      ensures Collected(Normals(load, messages)) == Err(Normal(load, messages[i]).error)
    {
      FirstFails(Normals(load, messages), i);
    }
  }

  lemma FirstFails<T, E>(results: seq<Result<T, E>>, i: nat)
    requires i < |results| && results[i].Err? && forall j :: 0 <= j < i ==> results[j].Ok?
    ensures Collected(results) == Err(results[i].error)
  {
    CollectedOk(results[..i]);
    CollectedFails(results, i);
  }

  // Everything can be restored, but some original has no row: the rewrite is refused.
  lemma LeftoverRefused(items: seq<Original>, captured: Json)
    requires Listed(captured) && !(multiset(Keys(items)) <= multiset(Targets(Rows(captured))))
    requires Collected(Restorations(Instructions(captured))).Ok? && Collected(Places(items, Rows(captured))).Ok?
    ensures Rebuilt(items, captured) == Err(UnsupportedRewrite)
  {
  }

  // Every original is in the result, verbatim, at the place of exactly one captured row,
  // the one equal to its normalisation.
  lemma OriginalsConserved(items: seq<Original>, captured: Json, i: nat)
    requires Rebuilt(items, captured).Ok? && i < |items|
    ensures Listed(captured) && multiset(Keys(items)) <= multiset(Targets(Rows(captured)))
    ensures var rows, shift := Rows(captured), |Instructions(captured)|;
            var p := Target(Keys(items), Targets(rows), i);
            && |Rebuilt(items, captured).value| == shift + |rows|
            && Rebuilt(items, captured).value[shift + p] == items[i].value
            && Canonical(rows[p]) == items[i].key
            && Matched(Keys(items), Targets(rows), p)
            && Source(Keys(items), Targets(rows), p) == i
  {
    SuccessExactly(items, captured);
    var rows := Rows(captured);
    var p := Target(Keys(items), Targets(rows), i);
    SourceAndTarget(Keys(items), Targets(rows), i);
    ResultAt(items, captured, p);
  }

  // A captured row holds either the one original that belongs there or its own text.
  lemma RowsAccountedFor(items: seq<Original>, captured: Json, p: nat)
    requires Rebuilt(items, captured).Ok? && Listed(captured) && p < |Rows(captured)|
    requires multiset(Keys(items)) <= multiset(Targets(Rows(captured)))
    ensures var keys, targets := Keys(items), Targets(Rows(captured));
            var out, shift := Rebuilt(items, captured).value, |Instructions(captured)|;
            && |out| == shift + |targets|
            && if Matched(keys, targets, p)
               then out[shift + p] == items[Source(keys, targets, p)].value
                 && Target(keys, targets, Source(keys, targets, p)) == p
               else Ok(out[shift + p]) == Restored(Rows(captured)[p])
  {
    ResultAt(items, captured, p);
    if Matched(Keys(items), Targets(Rows(captured)), p) {
      TargetAndSource(Keys(items), Targets(Rows(captured)), p);
    }
  }

  lemma ResultAt(items: seq<Original>, captured: Json, p: nat)
    requires Rebuilt(items, captured).Ok? && Listed(captured) && p < |Rows(captured)|
    ensures var out, shift := Rebuilt(items, captured).value, |Instructions(captured)|;
            |out| == shift + |Rows(captured)| && Ok(out[shift + p]) == Place(items, Rows(captured), p)
  {
    var head := Collected(Restorations(Instructions(captured)));
    CollectedOk(Restorations(Instructions(captured)));
    assert Rebuilt(items, captured) == Finished(items, head.value, Rows(captured));
    FinishedAt(items, head.value, Rows(captured), p);
  }

  lemma FinishedAt(items: seq<Original>, head: seq<Json>, rows: seq<Json>, p: nat)
    requires Finished(items, head, rows).Ok? && p < |rows|
    ensures var out := Finished(items, head, rows).value;
            |out| == |head| + |rows| && Ok(out[|head| + p]) == Place(items, rows, p)
  {
    CollectedOk(Places(items, rows));
    assert Places(items, rows)[p] == Place(items, rows, p);
  }

  // The instructions come first, each as its own text.
  lemma InstructionsLead(items: seq<Original>, captured: Json, k: nat)
    requires Rebuilt(items, captured).Ok? && Listed(captured) && k < |Instructions(captured)|
    ensures k < |Rebuilt(items, captured).value|
    ensures Ok(Rebuilt(items, captured).value[k]) == Restored(Instructions(captured)[k])
  {
    CollectedOk(Restorations(Instructions(captured)));
    assert Restorations(Instructions(captured))[k] == Restored(Instructions(captured)[k]);
  }

  // Originals that normalise to the same row stay in order.
  lemma EqualOriginalsKeepOrder(items: seq<Original>, captured: Json, i: nat, j: nat)
    requires Rebuilt(items, captured).Ok?
    requires i < j < |items| && items[i].key == items[j].key
    ensures Listed(captured) && multiset(Keys(items)) <= multiset(Targets(Rows(captured)))
    ensures Target(Keys(items), Targets(Rows(captured)), i) < Target(Keys(items), Targets(Rows(captured)), j)
  {
    SuccessExactly(items, captured);
    OrderKept(Keys(items), Targets(Rows(captured)), i, j);
  }

  // The router only picked a tier: it passed the conversation on as it got it.
  ghost predicate OnlyPicked(captured: Json, rows: seq<Json>) {
    Listed(captured) && Instructions(captured) == [] && Rows(captured) == rows
  }

  // Then the client's request comes back unchanged, whatever extension fields,
  // annotations or argument spellings its messages carry, for the tier that was picked.
  lemma PassThrough(load: Loader, stage: seq<Json> -> Staged, request: Json, tier: Tier, captured: Json)
    requires Validate(load, request).Ok? && WellFormed(request)
    requires forall normalized ::
               Collected(Normals(load, Get(request, "messages").value.items)) == Ok(normalized) ==>
                 && stage(normalized) == (if tier == Capable then Ran([captured], []) else Ran([], [captured]))
                 && OnlyPicked(captured, normalized)
    ensures RouteOf(load, stage, request) == Ok(Routed(tier, request))
  {
    var messages := ValidNormals(load, request);
    var normalized := Collected(Normals(load, messages)).value;
    var items := Zipped(normalized, messages);
    SelectedExactly(stage(normalized));
    Identity(items, normalized, captured);
    assert Values(items) == messages;
    ReplaceSame(request.fields, "messages");
  }

  lemma ValidNormals(load: Loader, request: Json) returns (messages: seq<Json>)
    requires Validate(load, request).Ok?
    ensures Get(request, "messages") == Some(Arr(messages))
    ensures Collected(Normals(load, messages)).Ok?
    ensures |Collected(Normals(load, messages)).value| == |messages|
  {
    ValidMessagesNormalize(load, request);
    messages := Get(request, "messages").value.items;
    CollectedOk(Normals(load, messages));
  }

  function Values(items: seq<Original>): (r: seq<Json>)
    ensures |r| == |items| && forall i :: 0 <= i < |r| ==> r[i] == items[i].value
  {
    seq(|items|, i requires 0 <= i < |items| => items[i].value)
  }

  lemma Identity(items: seq<Original>, rows: seq<Json>, captured: Json)
    requires |items| == |rows| && forall i :: 0 <= i < |items| ==> items[i].key == Canonical(rows[i])
    requires OnlyPicked(captured, rows)
    ensures Rebuilt(items, captured) == Ok(Values(items))
  {
    IdentityOk(items, rows, captured);
    var out := Rebuilt(items, captured).value;
    forall p: nat | p < |rows|
      ensures |out| == |rows| && out[p] == items[p].value
    {
      IdentityAt(items, rows, captured, p);
    }
    ResultLength(items, captured);
    assert out == Values(items);
  }

  lemma IdentityAt(items: seq<Original>, rows: seq<Json>, captured: Json, p: nat)
    requires |items| == |rows| && Targets(rows) == Keys(items) && p < |rows|
    requires OnlyPicked(captured, rows) && Rebuilt(items, captured).Ok?
    ensures |Rebuilt(items, captured).value| == |rows|
    ensures Rebuilt(items, captured).value[p] == items[p].value
  {
    OwnPlace(items, rows, p);
    ResultAt(items, captured, p);
  }

  lemma IdentityOk(items: seq<Original>, rows: seq<Json>, captured: Json)
    requires |items| == |rows| && forall i :: 0 <= i < |items| ==> items[i].key == Canonical(rows[i])
    requires OnlyPicked(captured, rows)
    ensures Rebuilt(items, captured).Ok? && Targets(rows) == Keys(items)
  {
    assert Targets(rows) == Keys(items);
    forall p: nat | p < |rows|
      ensures Matched(Keys(items), Targets(rows), p)
    {
      OwnPlace(items, rows, p);
    }
    SuccessExactly(items, captured);
  }

  lemma OwnPlace(items: seq<Original>, rows: seq<Json>, p: nat)
    requires |items| == |rows| && Targets(rows) == Keys(items) && p < |rows|
    ensures Matched(Keys(items), Targets(rows), p) && Place(items, rows, p) == Ok(items[p].value)
  {
    NthUnique(Keys(items), p);
  }

  lemma ResultLength(items: seq<Original>, captured: Json)
    requires Rebuilt(items, captured).Ok? && Listed(captured)
    ensures |Rebuilt(items, captured).value| == |Instructions(captured)| + |Rows(captured)|
  {
    CollectedOk(Restorations(Instructions(captured)));
    CollectedOk(Places(items, Rows(captured)));
  }

  lemma ReplaceSame(fields: seq<Field>, key: string)
    requires WellFormed(Obj(fields)) && Lookup(fields, key).Some?
    ensures Replace(fields, key, Lookup(fields, key).value) == fields
  {
    forall i | 0 <= i < |fields| && fields[i].key == key
      ensures Lookup(fields, key).value == fields[i].value
    {
      LookupAt(fields, i);
    }
  }
}
