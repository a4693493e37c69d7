/**
 Which messages compression may see, and what it may do to them.  Live exchanges,
 instructions and cache-marked rows are protected; the rest may change only in
 their content.
 */
module History {
  import opened Wrappers
  import opened JsonValues

  // ------------------------------------------------------------------
  // Rows
  // ------------------------------------------------------------------

  predicate HasRole(row: Json, role: string) {
    Get(row, "role") == Some(Str(role))
  }

  predicate IsInstruction(row: Json) {
    HasRole(row, "system") || HasRole(row, "developer")
  }

  // A missing identifier and a null one are the same None.
  function Identity(id: Option<Json>): Canon {
    if id.None? then CNull else Canonical(id.value)
  }

  function Answered(row: Json): Canon {
    Identity(Get(row, "tool_call_id"))
  }

  function Calls(row: Json): seq<Canon> {
    match Get(row, "tool_calls")
    case Some(Arr(calls)) => seq(|calls|, k requires 0 <= k < |calls| => Identity(Get(calls[k], "id")))
    case _ => []
  }

  // Some dictionary inside the value carries the key "cache_control".
  predicate Cached(value: Json) {
    match value
    case Obj(fields) => exists i | 0 <= i < |fields| :: fields[i].key == "cache_control" || Cached(fields[i].value)
    case Arr(items) => exists i | 0 <= i < |items| :: Cached(items[i])
    case _ => false
  }

  // --- the same, said of the rows themselves

  function Role(row: Json): Option<Json> {
    Get(row, "role")
  }

  ghost predicate Instruction(row: Json) {
    Role(row) == Some(Str("system")) || Role(row) == Some(Str("developer"))
  }

  predicate Blank(id: Option<Json>) {
    id.None? || id.value.Null?
  }

  predicate SameId(a: Option<Json>, b: Option<Json>) {
    (Blank(a) && Blank(b)) || (a.Some? && b.Some? && Canonical(a.value) == Canonical(b.value))
  }

  // One of the caller's tool calls has the identifier the other row answers.
  ghost predicate Answers(caller: Json, row: Json) {
    exists calls, k: nat :: Get(caller, "tool_calls") == Some(Arr(calls)) && k < |calls|
                            && SameId(Get(calls[k], "id"), Get(row, "tool_call_id"))
  }

  lemma AnswersExactly(caller: Json, row: Json)
    ensures Answered(row) in Calls(caller) <==> Answers(caller, row)
  {
    if Get(caller, "tool_calls").Some? && Get(caller, "tool_calls").value.Arr? {
      var calls := Get(caller, "tool_calls").value.items;
      forall k | 0 <= k < |calls|
        ensures Calls(caller)[k] == Answered(row) <==> SameId(Get(calls[k], "id"), Get(row, "tool_call_id"))
      {
        NullAlone(Get(calls[k], "id"));
        NullAlone(Get(row, "tool_call_id"));
      }
      if Answered(row) in Calls(caller) {
        var k: nat :| k < |calls| && Calls(caller)[k] == Answered(row);
        assert SameId(Get(calls[k], "id"), Get(row, "tool_call_id"));
      }
    }
  }

  lemma NullAlone(id: Option<Json>)
    ensures Identity(id) == CNull <==> Blank(id)
  {
  }

  // The value reached through these children, in order
  function Inside(value: Json, path: seq<nat>): Option<Json>
    decreases |path|
  {
    if path == [] then Some(value)
    else if value.Arr? && path[0] < |value.items| then Inside(value.items[path[0]], path[1..])
    else if value.Obj? && path[0] < |value.fields| then Inside(value.fields[path[0]].value, path[1..])
    else None
  }

  ghost predicate MarkedAt(value: Json, path: seq<nat>) {
    Inside(value, path).Some? && HasKey(Inside(value, path).value, "cache_control")
  }

  // A row is cache-marked exactly if somewhere inside it an object has that key.
  lemma {:induction false} CachedExactly(value: Json)
    ensures Cached(value) <==> exists path :: MarkedAt(value, path)
    decreases value
  {
    if Cached(value) {
      var path := MarkFound(value);
    }
    if path :| MarkedAt(value, path) {
      MarkCounts(value, path);
    }
  }

  lemma {:induction false} MarkFound(value: Json) returns (path: seq<nat>)
    requires Cached(value)
    ensures MarkedAt(value, path)
    decreases value
  {
    path := [];
    if value.Arr? {
      var i: nat :| i < |value.items| && Cached(value.items[i]);
      path := MarkFound(value.items[i]);
      assert ([i] + path)[1..] == path;
      path := [i] + path;
    } else if !HasKey(value, "cache_control") {
      var i: nat :| i < |value.fields| && (value.fields[i].key == "cache_control" || Cached(value.fields[i].value));
      if value.fields[i].key == "cache_control" { KeyIsThere(value.fields, i); }
      path := MarkFound(value.fields[i].value);
      assert ([i] + path)[1..] == path;
      path := [i] + path;
    }
  }

  lemma {:induction false} MarkCounts(value: Json, path: seq<nat>)
    requires MarkedAt(value, path)
    ensures Cached(value)
    decreases |path|
  {
    if path == [] {
      var i := LookupFinds(value.fields, "cache_control");
    } else {
      MarkCounts(if value.Arr? then value.items[path[0]] else value.fields[path[0]].value, path[1..]);
    }
  }

  lemma {:induction false} KeyIsThere(fields: seq<Field>, i: nat)
    requires i < |fields|
    ensures Lookup(fields, fields[i].key).Some?
  {
    if i == 0 {
    } else {
      KeyIsThere(fields[1..], i - 1);
    }
  }

  // ------------------------------------------------------------------
  // The boundary between old history and the live exchange
  // ------------------------------------------------------------------

  // Where the role last occurs; the front of the conversation if it never does
  function LastWithRole(messages: seq<Json>, role: string): (r: nat)
    ensures r == 0 || (r < |messages| && HasRole(messages[r], role))
    ensures forall i :: r < i < |messages| ==> !HasRole(messages[i], role)
  {
    if messages == [] || HasRole(messages[|messages| - 1], role) then if messages == [] then 0 else |messages| - 1
    else LastWithRole(messages[..|messages| - 1], role)
  }

  function Start(messages: seq<Json>): (r: nat)
    ensures r <= |messages|
  {
    var user, assistant := LastWithRole(messages, "user"), LastWithRole(messages, "assistant");
    if user < assistant then user else assistant
  }

  // Row i makes a call that is answered at or after b.
  predicate CallsInto(messages: seq<Json>, i: nat, b: nat)
    requires i < |messages|
  {
    exists j | b <= j < |messages| :: Answered(messages[j]) in Calls(messages[i])
  }

  // No earlier row is part of a live exchange.
  predicate Closed(messages: seq<Json>, b: nat)
    requires b <= |messages|
  {
    forall i | 0 <= i < b :: !CallsInto(messages, i, b)
  }

  // The reference definition: search downwards for a closed boundary.
  function LargestClosed(messages: seq<Json>, b: nat): (r: nat)
    requires b <= |messages|
    ensures r <= b && Closed(messages, r)
    ensures forall k :: r < k <= b ==> !Closed(messages, k)
  {
    if Closed(messages, b) then b else LargestClosed(messages, b - 1)
  }

  function Boundary(messages: seq<Json>): (r: nat)
    ensures r <= |messages|
  {
    LargestClosed(messages, Start(messages))
  }

  // The rows from `from` on that call into b, in order
  function Earlier(messages: seq<Json>, b: nat, from: nat): (r: seq<nat>)
    requires from <= b <= |messages|
    ensures forall k :: 0 <= k < |r| ==> from <= r[k] < b && CallsInto(messages, r[k], b)
    ensures forall i :: from <= i < b && CallsInto(messages, i, b) ==> i in r
    decreases b - from
  {
    if from == b then []
    else (if CallsInto(messages, from, b) then [from] else []) + Earlier(messages, b, from + 1)
  }

  function Min(values: seq<nat>): (m: nat)
    requires values != []
    ensures m in values && forall k :: 0 <= k < |values| ==> m <= values[k]
  {
    if |values| == 1 then values[0]
    else
      var rest := Min(values[1..]);
      if values[0] < rest then values[0] else rest
  }

  // Jumping to the earliest caller loses no closed boundary.
  lemma JumpIsSafe(messages: seq<Json>, b: nat, caller: nat, k: nat)
    requires caller < b <= |messages| && CallsInto(messages, caller, b)
    requires k <= b && Closed(messages, k)
    ensures k <= caller
  {
    if caller < k {
      var j :| b <= j < |messages| && Answered(messages[j]) in Calls(messages[caller]);
      assert CallsInto(messages, caller, k);
    }
  }

  method FindBoundary(messages: seq<Json>) returns (boundary: nat)
    ensures boundary == Boundary(messages)
  {
    boundary := Start(messages);
    while true
      invariant boundary <= Start(messages)
      invariant LargestClosed(messages, Start(messages)) == LargestClosed(messages, boundary)
      decreases boundary
    {
      var earlier := Earlier(messages, boundary, 0);
      if earlier == [] {
        break;
      }
      var first := Min(earlier);
      forall k | first < k <= boundary
        ensures !Closed(messages, k)
      {
        if Closed(messages, k) { JumpIsSafe(messages, boundary, first, k); }
      }
      SkipOpen(messages, boundary, first);
      boundary := first;
    }
  }

  lemma {:induction false} SkipOpen(messages: seq<Json>, b: nat, low: nat)
    requires low <= b <= |messages|
    requires forall k :: low < k <= b ==> !Closed(messages, k)
    ensures LargestClosed(messages, b) == LargestClosed(messages, low)
    decreases b
  {
    if low == b {
    } else {
      SkipOpen(messages, b - 1, low);
    }
  }

  function EligibleFrom(messages: seq<Json>, boundary: nat, from: nat): (r: seq<nat>)
    requires from <= boundary <= |messages|
    ensures forall k :: 0 <= k < |r| ==> from <= r[k] < boundary
    ensures forall i :: i in r <==> from <= i < boundary && !IsInstruction(messages[i]) && !Cached(messages[i])
    ensures forall j, k :: 0 <= j < k < |r| ==> r[j] < r[k]
    decreases boundary - from
  {
    if from == boundary then []
    else (if IsInstruction(messages[from]) || Cached(messages[from]) then [] else [from])
         + EligibleFrom(messages, boundary, from + 1)
  }

  function Eligible(messages: seq<Json>): seq<nat> {
    EligibleFrom(messages, Boundary(messages), 0)
  }

  method EligibleIndices(messages: seq<Json>) returns (indices: seq<nat>)
    ensures indices == Eligible(messages)
  {
    var boundary := FindBoundary(messages);
    indices := EligibleFrom(messages, boundary, 0);
  }

  // There is a row of that role at or behind b.
  ghost predicate Ahead(messages: seq<Json>, b: nat, role: string) {
    exists j :: b <= j < |messages| && Role(messages[j]) == Some(Str(role))
  }

  // A boundary leaves a user row and an assistant row at or behind it, unless it is the front.
  ghost predicate KeepsLast(messages: seq<Json>, b: nat) {
    b == 0 || (Ahead(messages, b, "user") && Ahead(messages, b, "assistant"))
  }

  lemma StartExactly(messages: seq<Json>, b: nat)
    ensures b <= Start(messages) <==> KeepsLast(messages, b)
  {
    var user, assistant := LastWithRole(messages, "user"), LastWithRole(messages, "assistant");
    assert 0 < b <= user ==> HasRole(messages[user], "user");
    assert 0 < b <= assistant ==> HasRole(messages[assistant], "assistant");
  }

  // No row before b makes a call that is answered at or behind it.
  ghost predicate Separates(messages: seq<Json>, b: nat) {
    forall i: nat, j: nat :: i < b <= j < |messages| ==> !Answers(messages[i], messages[j])
  }

  lemma ClosedExactly(messages: seq<Json>, b: nat)
    requires b <= |messages|
    ensures Closed(messages, b) <==> Separates(messages, b)
  {
    forall i: nat, j: nat | i < b <= j < |messages|
      ensures Answers(messages[i], messages[j]) <==> Answered(messages[j]) in Calls(messages[i])
    {
      AnswersExactly(messages[i], messages[j]);
    }
    if Closed(messages, b) {
      forall i: nat, j: nat | i < b <= j < |messages|
        ensures !Answers(messages[i], messages[j])
      {
        assert !CallsInto(messages, i, b);
      }
    }
  }

  // The boundary keeps the last user and the last assistant row, separates no call from
  // its answer, and is the largest that does both.
  lemma BoundaryIsOptimal(messages: seq<Json>)
    ensures var b := Boundary(messages);
            && b <= |messages| && KeepsLast(messages, b) && Separates(messages, b)
            && forall k: nat :: KeepsLast(messages, k) && Separates(messages, k) ==> k <= b
  {
    var b := Boundary(messages);
    StartExactly(messages, b);
    ClosedExactly(messages, b);
    forall k: nat | KeepsLast(messages, k) && Separates(messages, k)
      ensures k <= b
    {
      StartExactly(messages, k);
      ClosedExactly(messages, k);
    }
  }

  // Eligible are, in order, the rows before the boundary that are neither instructions nor
  // cache-marked.
  lemma EligibleExactly(messages: seq<Json>)
    ensures forall j, k :: 0 <= j < k < |Eligible(messages)| ==> Eligible(messages)[j] < Eligible(messages)[k]
    ensures forall i: nat :: i in Eligible(messages) <==>
              && i < Boundary(messages) && !Instruction(messages[i])
              && !exists path :: MarkedAt(messages[i], path)
  {
    forall i: nat | i < Boundary(messages)
      ensures Cached(messages[i]) <==> exists path :: MarkedAt(messages[i], path)
    {
      CachedExactly(messages[i]);
    }
  }

  // ------------------------------------------------------------------
  // Merging the compressed rows back
  // ------------------------------------------------------------------

  // What the compressor port comes to.
  datatype Compression = CompressorFailed | Compressed(outcome: string, messages: seq<Json>)

  const OUTCOMES := {"savings", "no_savings", "failed_unknown"}

  predicate SameRow(old_: Json, new_: Json) {
    && old_.Obj? && new_.Obj?
    && Canonical(Obj(Without(old_.fields, "content"))) == Canonical(Obj(Without(new_.fields, "content")))
  }

  // Every key but one has the same value, or is missing from both.
  ghost predicate SameBut(a: Json, b: Json, key: string) {
    && a.Obj? && b.Obj?
    && forall k: string :: k != key ==>
         && (HasKey(a, k) <==> HasKey(b, k))
         && (HasKey(a, k) ==> Canonical(Get(a, k).value) == Canonical(Get(b, k).value))
  }

  // Comparing the rows without that key as wholes is comparing them key by key.
  lemma SameRowExactly(a: Json, b: Json)
    ensures SameRow(a, b) <==> SameBut(a, b, "content")
  {
    if a.Obj? && b.Obj? {
      var x, y := Without(a.fields, "content"), Without(b.fields, "content");
      forall k: string
        ensures k in CanonicalFields(x) <==> k != "content" && HasKey(a, k)
        ensures k in CanonicalFields(y) <==> k != "content" && HasKey(b, k)
        ensures k in CanonicalFields(x) ==> CanonicalFields(x)[k] == Canonical(Get(a, k).value)
        ensures k in CanonicalFields(y) ==> CanonicalFields(y)[k] == Canonical(Get(b, k).value)
      {
        LookupWithout(a.fields, "content", k);
        LookupWithout(b.fields, "content", k);
        CanonicalLookup(x, k);
        CanonicalLookup(y, k);
      }
      SameMaps(CanonicalFields(x), CanonicalFields(y));
    }
  }

  lemma SameMaps(x: map<string, Canon>, y: map<string, Canon>)
    ensures x == y <==> forall k :: (k in x <==> k in y) && (k in x ==> x[k] == y[k])
  {
  }

  predicate SameStructure(before: seq<Json>, after: seq<Json>) {
    |before| == |after| && forall i | 0 <= i < |before| :: SameRow(before[i], after[i])
  }

  function At(messages: seq<Json>, indices: seq<nat>): seq<Json>
    requires forall k :: 0 <= k < |indices| ==> indices[k] < |messages|
  {
    seq(|indices|, k requires 0 <= k < |indices| => messages[indices[k]])
  }

  // The compressed rows are taken only if the outcome is a known success and the structure is intact.
  predicate Accepted(original: seq<Json>, reply: Compression) {
    && reply.Compressed? && reply.outcome in OUTCOMES && reply.outcome != "failed_unknown"
    && SameStructure(original, reply.messages)
  }

  function Recorded(original: seq<Json>, reply: Compression): string {
    if reply.Compressed? && reply.outcome in OUTCOMES && SameStructure(original, reply.messages)
    then reply.outcome else "failed_unknown"
  }

  function Overwrite(messages: seq<Json>, indices: seq<nat>, rows: seq<Json>): (r: seq<Json>)
    requires |indices| <= |rows| && forall k :: 0 <= k < |indices| ==> indices[k] < |messages|
    ensures |r| == |messages|
  {
    if indices == [] then messages
    else Overwrite(messages, indices[..|indices| - 1], rows)[indices[|indices| - 1] := rows[|indices| - 1]]
  }

  function Merged(messages: seq<Json>, indices: seq<nat>, reply: Compression): seq<Json>
    requires forall k :: 0 <= k < |indices| ==> indices[k] < |messages|
  {
    if Accepted(At(messages, indices), reply) then Overwrite(messages, indices, reply.messages) else messages
  }

  // `messages` is the private list of the outgoing request, changed in place.
  method MergeCompressed(messages: array<Json>, indices: seq<nat>, reply: Compression) returns (recorded: string)
    requires forall k :: 0 <= k < |indices| ==> indices[k] < messages.Length
    modifies messages
    ensures messages[..] == Merged(old(messages[..]), indices, reply)
    ensures recorded == Recorded(At(old(messages[..]), indices), reply)
  {
    ghost var before := messages[..];
    var original := At(messages[..], indices);
    if reply.CompressorFailed? || reply.outcome !in OUTCOMES || !SameStructure(original, reply.messages) {
      return "failed_unknown";
    }
    if reply.outcome != "failed_unknown" {
      for k := 0 to |indices|
        invariant messages[..] == Overwrite(before, indices[..k], reply.messages)
      {
        assert indices[..k + 1][..k] == indices[..k];
        messages[indices[k]] := reply.messages[k];
      }
      assert indices[..|indices|] == indices;
    }
    return reply.outcome;
  }

  lemma {:induction false} OverwriteAt(messages: seq<Json>, indices: seq<nat>, rows: seq<Json>, i: nat)
    requires |indices| <= |rows| && forall k :: 0 <= k < |indices| ==> indices[k] < |messages|
    requires i < |messages|
    ensures i !in indices ==> Overwrite(messages, indices, rows)[i] == messages[i]
    ensures i in indices ==>
              exists k :: 0 <= k < |indices| && indices[k] == i && Overwrite(messages, indices, rows)[i] == rows[k]
    decreases |indices|
  {
    if indices == [] {
    } else {
      var last := |indices| - 1;
      OverwriteAt(messages, indices[..last], rows, i);
      if i != indices[last] && i in indices {
        var k :| 0 <= k < last && indices[..last][k] == i
                 && Overwrite(messages, indices[..last], rows)[i] == rows[k];
        assert indices[k] == i;
      }
    }
  }

  // With distinct indices every row lands in its place.
  lemma {:induction false} OverwrittenAt(messages: seq<Json>, indices: seq<nat>, rows: seq<Json>, k: nat)
    requires |indices| <= |rows| && (forall i :: 0 <= i < |indices| ==> indices[i] < |messages|)
    requires k < |indices| && forall i, j :: 0 <= i < j < |indices| ==> indices[i] != indices[j]
    ensures Overwrite(messages, indices, rows)[indices[k]] == rows[k]
    decreases |indices|
  {
    var last := |indices| - 1;
    if k == last {
    } else {
      OverwrittenAt(messages, indices[..last], rows, k);
      assert indices[..last][k] == indices[k] != indices[last];
    }
  }

  // The messages that are sent, given whether compression is on for this request.
  function Outgoing(messages: seq<Json>, enabled: bool, reply: Compression): seq<Json> {
    if !enabled || Eligible(messages) == [] then messages
    else Merged(messages, Eligible(messages), reply)
  }

  // The compressor reports success and gives back one row for each it got, changed in its
  // content only.
  ghost predicate Acceptable(messages: seq<Json>, reply: Compression) {
    && reply.Compressed? && (reply.outcome == "savings" || reply.outcome == "no_savings")
    && |reply.messages| == |Eligible(messages)|
    && forall k :: 0 <= k < |reply.messages| ==> SameBut(messages[Eligible(messages)[k]], reply.messages[k], "content")
  }

  lemma AcceptedExactly(messages: seq<Json>, reply: Compression)
    ensures Accepted(At(messages, Eligible(messages)), reply) <==> Acceptable(messages, reply)
  {
    if reply.Compressed? && |reply.messages| == |Eligible(messages)| {
      var original := At(messages, Eligible(messages));
      forall k | 0 <= k < |original|
        ensures SameRow(original[k], reply.messages[k])
           <==> SameBut(messages[Eligible(messages)[k]], reply.messages[k], "content")
      {
        SameRowExactly(original[k], reply.messages[k]);
      }
    }
  }

  // Compression changes nothing but eligible rows; if it is on and its result acceptable,
  // each of them becomes the row the compressor gave back for it, and otherwise nothing changes.
  lemma CompressionIsConfined(messages: seq<Json>, enabled: bool, reply: Compression)
    ensures var out := Outgoing(messages, enabled, reply);
            && |out| == |messages|
            && (forall i: nat :: i < |messages| && i !in Eligible(messages) ==> out[i] == messages[i])
            && (forall i: nat :: i < |messages| ==> out[i] == messages[i] || SameBut(messages[i], out[i], "content"))
            && (if enabled && Acceptable(messages, reply)
                then forall k :: 0 <= k < |Eligible(messages)| ==> out[Eligible(messages)[k]] == reply.messages[k]
                else out == messages)
  {
    var indices := Eligible(messages);
    AcceptedExactly(messages, reply);
    if enabled && indices != [] && Acceptable(messages, reply) {
      forall k | 0 <= k < |indices|
        ensures Outgoing(messages, enabled, reply)[indices[k]] == reply.messages[k]
      {
        OverwrittenAt(messages, indices, reply.messages, k);
      }
      forall i: nat | i < |messages| && i !in indices
        ensures Outgoing(messages, enabled, reply)[i] == messages[i]
      {
        OverwriteAt(messages, indices, reply.messages, i);
      }
    }
  }

  // What is recorded is what the compressor reports, if it can be believed.
  lemma RecordedExactly(original: seq<Json>, reply: Compression)
    ensures reply.Compressed? && reply.outcome in {"savings", "no_savings", "failed_unknown"}
            && |reply.messages| == |original|
            && (forall k :: 0 <= k < |original| ==> SameBut(original[k], reply.messages[k], "content"))
            ==> Recorded(original, reply) == reply.outcome
    ensures !(reply.Compressed? && reply.outcome in {"savings", "no_savings", "failed_unknown"}
              && |reply.messages| == |original|
              && (forall k :: 0 <= k < |original| ==> SameBut(original[k], reply.messages[k], "content")))
            ==> Recorded(original, reply) == "failed_unknown"
  {
    if reply.Compressed? && |reply.messages| == |original| {
      forall k | 0 <= k < |original|
        ensures SameRow(original[k], reply.messages[k]) <==> SameBut(original[k], reply.messages[k], "content")
      {
        SameRowExactly(original[k], reply.messages[k]);
      }
    }
  }

  // Hence every instruction, every cache-marked row, the last exchange and every
  // call answered in the live suffix go out as they came in.
  lemma ProtectedRowsUnchanged(messages: seq<Json>, enabled: bool, reply: Compression, i: nat)
    requires i < |messages|
    requires || Instruction(messages[i])
             || (exists path :: MarkedAt(messages[i], path))
             || !Ahead(messages, i + 1, "user") || !Ahead(messages, i + 1, "assistant")
             || (exists j: nat :: Boundary(messages) <= j < |messages| && Answers(messages[i], messages[j]))
    ensures Outgoing(messages, enabled, reply)[i] == messages[i]
  {
    CompressionIsConfined(messages, enabled, reply);
    EligibleExactly(messages);
    BoundaryIsOptimal(messages);
    if i < Boundary(messages) {
      StartExactly(messages, i + 1);
      StartExactly(messages, Boundary(messages));
    }
  }
}
