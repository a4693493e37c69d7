/** What ingress accepts as a chat completion request. */
module Validation {
  import opened Wrappers
  import opened JsonValues

  // A 400 with its code, or a type error that surfaces as a 500.
  datatype Rejection = BadRequest(code: string) | Crash

  const ROLES := {"system", "developer", "user", "assistant", "tool"}

  predicate IsTextBlock(block: Json) {
    block.Obj? && Get(block, "type") == Some(Str("text")) && Get(block, "text").Some? && Get(block, "text").value.Str?
  }

  predicate AllTextBlocks(items: seq<Json>) {
    forall i | 0 <= i < |items| :: IsTextBlock(items[i])
  }

  predicate IsNonEmptyString(value: Option<Json>) {
    value.Some? && value.value.Str? && value.value.s != ""
  }

  predicate ValidCall(load: string -> Option<Json>, call: Json) {
    && call.Obj?
    && Get(call, "type") == Some(Str("function"))
    && IsNonEmptyString(Get(call, "id"))
    && (match Get(call, "function")
        case Some(function_) =>
          && function_.Obj?
          && IsNonEmptyString(Get(function_, "name"))
          && (match Get(function_, "arguments")
              case Some(Str(text)) => load(text).Some? && load(text).value.Obj?
              case _ => false)
        case None => false)
  }

  predicate ValidContent(content: Option<Json>) {
    match content
    case None | Some(Null) | Some(Str(_)) => true
    case Some(Arr(items)) => AllTextBlocks(items)
    case Some(_) => false
  }

  function ValidateMessage(load: string -> Option<Json>, message: Json): Result<(), Rejection> {
    if !message.Obj? then Err(BadRequest("invalid_message"))
    else
      var role := Get(message, "role");
      if role.Some? && (role.value.Arr? || role.value.Obj?) then Err(Crash)   // unhashable in a set test
      else if !(role.Some? && role.value.Str? && role.value.s in ROLES) then Err(BadRequest("invalid_message"))
      else
        var content := Get(message, "content");
        if !ValidContent(content) then Err(BadRequest("unsupported_message_content"))
        else if (content.None? || content.value.Null?) && role.value.s != "assistant"
        then Err(BadRequest("invalid_message_content"))
        else
          match Get(message, "tool_calls")
          case Some(Arr(calls)) =>
            if exists i | 0 <= i < |calls| :: !ValidCall(load, calls[i]) then Err(BadRequest("invalid_tool_calls"))
            else ValidateResult(role.value.s, message)
          case None => ValidateResult(role.value.s, message)
          case Some(_) => Err(BadRequest("invalid_tool_calls"))
  }

  function ValidateResult(role: string, message: Json): Result<(), Rejection> {
    if role == "tool" && !IsNonEmptyString(Get(message, "tool_call_id")) then Err(BadRequest("invalid_tool_result"))
    else Ok(())
  }

  function ValidateMessages(load: string -> Option<Json>, messages: seq<Json>): Result<(), Rejection> {
    if messages == [] then Ok(())
    else
      match ValidateMessage(load, messages[0])
      case Err(e) => Err(e)
      case Ok(_) => ValidateMessages(load, messages[1..])
  }

  function Validate(load: string -> Option<Json>, payload: Json): Result<Json, Rejection> {
    if !payload.Obj? || !(Get(payload, "model").Some? && Get(payload, "model").value.Str?)
    then Err(BadRequest("invalid_request"))
    else if HasKey(payload, "stream") && !Get(payload, "stream").value.Bool? then Err(BadRequest("invalid_stream"))
    else
      match Get(payload, "messages")
      case Some(Arr(messages)) =>
        if messages == [] then Err(BadRequest("invalid_messages"))
        else
          (match ValidateMessages(load, messages)
           case Err(e) => Err(e)
           case Ok(_) => Ok(payload))
      case _ => Err(BadRequest("invalid_messages"))
  }

  // ------------------------------------------------------------------
  // What is accepted, and what is not refused but crashes
  // ------------------------------------------------------------------

  predicate Absent(value: Option<Json>) {
    value.None? || value.value.Null?
  }

  // Every role may send text; only an assistant may send none; a tool's message names the
  // call it answers; and whatever calls a message makes are calls of functions.
  predicate ValidMessage(load: string -> Option<Json>, message: Json) {
    && message.Obj?
    && Role(Get(message, "role"))
    && ValidContent(Get(message, "content"))
    && (Absent(Get(message, "content")) ==> Get(message, "role") == Some(Str("assistant")))
    && (HasKey(message, "tool_calls") ==>
          && Get(message, "tool_calls").value.Arr?
          && forall i :: 0 <= i < |Get(message, "tool_calls").value.items| ==>
               ValidCall(load, Get(message, "tool_calls").value.items[i]))
    && (Get(message, "role") == Some(Str("tool")) ==> IsNonEmptyString(Get(message, "tool_call_id")))
  }

  // A list or an object cannot be looked up among the roles.
  predicate UnhashableRole(message: Json) {
    message.Obj? && HasKey(message, "role") && (Get(message, "role").value.Arr? || Get(message, "role").value.Obj?)
  }

  lemma MessageExactly(load: string -> Option<Json>, message: Json)
    ensures ValidateMessage(load, message).Ok? <==> ValidMessage(load, message)
    ensures ValidateMessage(load, message) == Err(Crash) <==> UnhashableRole(message)
  {
  }

  // --- the parts, said of the values themselves

  predicate Named(value: Option<Json>) {
    value.Some? && value.value.Str? && value.value.s != ""
  }

  // A call names itself and its function, whose arguments are the text of an object.
  lemma CallExactly(load: string -> Option<Json>, call: Json)
    ensures ValidCall(load, call) <==>
            && call.Obj? && Get(call, "type") == Some(Str("function")) && Named(Get(call, "id"))
            && Get(call, "function").Some? && Get(call, "function").value.Obj?
            && var f := Get(call, "function").value;
               && Named(Get(f, "name")) && Get(f, "arguments").Some? && Get(f, "arguments").value.Str?
               && load(Get(f, "arguments").value.s).Some? && load(Get(f, "arguments").value.s).value.Obj?
  {
  }

  lemma ContentExactly(content: Option<Json>)
    ensures ValidContent(content) <==>
            || content.None? || content.value.Null? || content.value.Str?
            || (content.value.Arr?
                && forall i :: 0 <= i < |content.value.items| ==>
                     && content.value.items[i].Obj? && Get(content.value.items[i], "type") == Some(Str("text"))
                     && Get(content.value.items[i], "text").Some? && Get(content.value.items[i], "text").value.Str?)
  {
  }

  predicate Role(value: Option<Json>) {
    && value.Some? && value.value.Str?
    && var s := value.value.s; s == "system" || s == "developer" || s == "user" || s == "assistant" || s == "tool"
  }

  // What is wrong with a message that is refused, in the order of the checks
  lemma RefusalExactly(load: string -> Option<Json>, message: Json)
    ensures var refused, role, content := ValidateMessage(load, message), Get(message, "role"), Get(message, "content");
            refused.Err? && refused.error.BadRequest? ==>
              if !message.Obj? || !Role(role) then refused.error.code == "invalid_message"
              else if !ValidContent(content) then refused.error.code == "unsupported_message_content"
              else if (content.None? || content == Some(Null)) && role != Some(Str("assistant"))
              then refused.error.code == "invalid_message_content"
              else if role == Some(Str("tool")) && !Named(Get(message, "tool_call_id")) && CallsAreValid(load, message)
              then refused.error.code == "invalid_tool_result"
              else !CallsAreValid(load, message) && refused.error.code == "invalid_tool_calls"
  {
  }

  ghost predicate CallsAreValid(load: string -> Option<Json>, message: Json) {
    var calls := Get(message, "tool_calls");
    calls.None? || (calls.value.Arr? && forall i :: 0 <= i < |calls.value.items| ==> ValidCall(load, calls.value.items[i]))
  }

  // And with a request that is refused before its messages are looked at
  lemma FrameRefusalExactly(load: string -> Option<Json>, payload: Json)
    requires !ValidFrame(payload)
    ensures Validate(load, payload)
         == Err(BadRequest(if !payload.Obj? || !(Get(payload, "model").Some? && Get(payload, "model").value.Str?)
                           then "invalid_request"
                           else if HasKey(payload, "stream") && !Get(payload, "stream").value.Bool? then "invalid_stream"
                           else "invalid_messages"))
  {
  }

  // The first message that is not accepted decides.
  lemma {:induction false} FirstRefusal(load: string -> Option<Json>, messages: seq<Json>, e: Rejection)
    ensures ValidateMessages(load, messages) == Err(e)
       <==> exists i :: 0 <= i < |messages| && ValidateMessage(load, messages[i]) == Err(e)
                        && forall j :: 0 <= j < i ==> ValidateMessage(load, messages[j]).Ok?
  {
    if messages == [] {
    } else {
      var rest := messages[1..];
      FirstRefusal(load, rest, e);
      if ValidateMessage(load, messages[0]).Ok? {
        if ValidateMessages(load, rest) == Err(e) {
          var i :| 0 <= i < |rest| && ValidateMessage(load, rest[i]) == Err(e)
                   && forall j :: 0 <= j < i ==> ValidateMessage(load, rest[j]).Ok?;
          assert messages[i + 1] == rest[i];
          assert forall j :: 1 <= j < i + 1 ==> messages[j] == rest[j - 1];
        }
        if i :| 0 <= i < |messages| && ValidateMessage(load, messages[i]) == Err(e)
                && forall j :: 0 <= j < i ==> ValidateMessage(load, messages[j]).Ok? {
          assert rest[i - 1] == messages[i];
          assert forall j :: 0 <= j < i - 1 ==> rest[j] == messages[j + 1];
        }
      }
    }
  }

  // Everything before the messages is in order.
  predicate ValidFrame(payload: Json) {
    && payload.Obj?
    && Get(payload, "model").Some? && Get(payload, "model").value.Str?
    && (HasKey(payload, "stream") ==> Get(payload, "stream").value.Bool?)
    && Get(payload, "messages").Some? && Get(payload, "messages").value.Arr? && Get(payload, "messages").value.items != []
  }

  // A request is accepted exactly if its frame and every message are valid...
  lemma AcceptsExactly(load: string -> Option<Json>, payload: Json)
    ensures Validate(load, payload).Ok?
       <==> && ValidFrame(payload)
            && forall i :: 0 <= i < |Get(payload, "messages").value.items| ==>
                 ValidMessage(load, Get(payload, "messages").value.items[i])
  {
    if ValidFrame(payload) {
      var messages := Get(payload, "messages").value.items;
      ValidateAll(load, messages);
      forall i | 0 <= i < |messages|
        ensures ValidateMessage(load, messages[i]).Ok? <==> ValidMessage(load, messages[i])
      {
        MessageExactly(load, messages[i]);
      }
    }
  }

  // ...and ends in a type error, not a refusal, exactly if the first message that is not
  // valid has a list or an object for its role.
  lemma CrashesExactly(load: string -> Option<Json>, payload: Json)
    ensures Validate(load, payload) == Err(Crash)
       <==> && ValidFrame(payload)
            && var messages := Get(payload, "messages").value.items;
               exists i :: 0 <= i < |messages| && UnhashableRole(messages[i])
                           && forall j :: 0 <= j < i ==> ValidMessage(load, messages[j])
  {
    if ValidFrame(payload) {
      var messages := Get(payload, "messages").value.items;
      FirstRefusal(load, messages, Crash);
      forall i | 0 <= i < |messages|
        ensures ValidateMessage(load, messages[i]).Ok? <==> ValidMessage(load, messages[i])
        ensures ValidateMessage(load, messages[i]) == Err(Crash) <==> UnhashableRole(messages[i])
      {
        MessageExactly(load, messages[i]);
      }
    }
  }

  // {"model":"m","messages":[{"role":[]}]}
  const LISTED_ROLE :=
    Obj([Field("model", Str("m")), Field("messages", Arr([Obj([Field("role", Arr([]))])]))])

  lemma ListedRoleCrashes(load: string -> Option<Json>)
    ensures Validate(load, LISTED_ROLE) == Err(Crash)
  {
    var row := Obj([Field("role", Arr([]))]);
    assert Get(row, "role") == Some(Arr([])) && UnhashableRole(row);
    assert LISTED_ROLE.fields[1..][0] == Field("messages", Arr([row]));
    assert Get(LISTED_ROLE, "messages") == Some(Arr([row])) && [row][0] == row;
    CrashesExactly(load, LISTED_ROLE);
  }

  lemma {:induction false} ValidateAll(load: string -> Option<Json>, messages: seq<Json>)
    ensures ValidateMessages(load, messages).Ok?
       <==> forall i :: 0 <= i < |messages| ==> ValidateMessage(load, messages[i]).Ok?
  {
    if messages == [] {
    } else {
      ValidateAll(load, messages[1..]);
      assert forall i :: 1 <= i < |messages| ==> messages[i] == messages[1..][i - 1];
    }
  }
}
