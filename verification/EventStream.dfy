/**
 Where an event ends.  The wire format is the event stream of sections 9.2.5
 and 9.2.6 of the HTML Living Standard; the gateway looks for the leftmost
 match of two line ends, each a LF with an optional CR before it.
 */
module EventStream {
  import opened Wrappers

  type Byte = b: int | 0 <= b < 256
  type Bytes = seq<Byte>

  const LF: Byte := 10
  const CR: Byte := 13

  // The match buf[start..end] of the event delimiter.
  datatype Span = Span(start: nat, end: nat)

  function LineEnd(buf: Bytes, i: nat): (r: Option<nat>)
    ensures r.Some? ==> i < r.value <= |buf| && r.value <= i + 2
  {
    if i < |buf| && buf[i] == LF then Some(i + 1)
    else if i + 1 < |buf| && buf[i] == CR && buf[i + 1] == LF then Some(i + 2)
    else None
  }

  function MatchAt(buf: Bytes, i: nat): (r: Option<nat>)
    ensures r.Some? ==> i + 2 <= r.value <= |buf| && r.value <= i + 4
  {
    match LineEnd(buf, i)
    case None => None
    case Some(j) => LineEnd(buf, j)
  }

  function Search(buf: Bytes, from: nat := 0): (r: Option<Span>)
    requires from <= |buf|
    ensures r.Some? ==> from <= r.value.start < r.value.end <= |buf|
    decreases |buf| - from
  {
    if MatchAt(buf, from).Some? then Some(Span(from, MatchAt(buf, from).value))
    else if from == |buf| then None
    else Search(buf, from + 1)
  }

  // Two line ends, each a LF with an optional CR before it
  predicate IsDelimiter(bytes: Bytes) {
    bytes == [LF, LF] || bytes == [CR, LF, LF] || bytes == [LF, CR, LF] || bytes == [CR, LF, CR, LF]
  }

  lemma MatchExactly(buf: Bytes, i: nat, j: nat)
    ensures MatchAt(buf, i) == Some(j)
       <==> i <= j <= |buf| && IsDelimiter(buf[i..j])
  {
    var match_ := MatchAt(buf, i);
    if match_.Some? {
      var k := LineEnd(buf, i).value;
      LineEndExactly(buf, i, k);
      LineEndExactly(buf, k, match_.value);
      assert buf[i..match_.value] == buf[i..k] + buf[k..match_.value];
      assert [LF] + [LF] == [LF, LF] && [CR, LF] + [LF] == [CR, LF, LF];
      assert [LF] + [CR, LF] == [LF, CR, LF] && [CR, LF] + [CR, LF] == [CR, LF, CR, LF];
    }
    if i <= j <= |buf| && IsDelimiter(buf[i..j]) {
      DelimiterMatches(buf, i, j);
    }
  }

  lemma DelimiterMatches(buf: Bytes, i: nat, j: nat)
    requires i <= j <= |buf| && IsDelimiter(buf[i..j])
    ensures MatchAt(buf, i) == Some(j)
  {
    var part := buf[i..j];
    assert forall k :: 0 <= k < |part| ==> part[k] == buf[i + k];
    var k := if part[0] == LF then i + 1 else i + 2;
    assert LineEnd(buf, i) == Some(k);
    assert LineEnd(buf, k) == Some(j);
  }

  lemma LineEndExactly(buf: Bytes, i: nat, j: nat)
    ensures LineEnd(buf, i) == Some(j) <==> i <= j <= |buf| && (buf[i..j] == [LF] || buf[i..j] == [CR, LF])
  {
    if i <= j <= |buf| {
      var part := buf[i..j];
      assert forall k :: 0 <= k < |part| ==> part[k] == buf[i + k];
    }
  }

  // Search finds a match when there is one, and none starts further left.
  lemma {:induction false} SearchIsLeftmost(buf: Bytes, from: nat)
    requires from <= |buf|
    ensures Search(buf, from).Some? ==>
              var span := Search(buf, from).value;
              && MatchAt(buf, span.start) == Some(span.end)
              && forall i :: from <= i < span.start ==> MatchAt(buf, i).None?
    ensures Search(buf, from).None? ==> forall i :: from <= i <= |buf| ==> MatchAt(buf, i).None?
    decreases |buf| - from
  {
    if MatchAt(buf, from).Some? || from == |buf| {
    } else {
      SearchIsLeftmost(buf, from + 1);
    }
  }

  // A leftmost match is determined by its start and end.
  lemma SearchIs(buf: Bytes, span: Span)
    requires span.start <= |buf| && MatchAt(buf, span.start) == Some(span.end)
    requires forall i :: 0 <= i < span.start ==> MatchAt(buf, i).None?
    ensures Search(buf) == Some(span)
  {
    SearchIsLeftmost(buf, 0);
    var found := Search(buf);
    assert found.Some? && found.value.start == span.start;
  }

  // A match inside a prefix is a match of the whole, with the same end.
  lemma MatchInPrefix(buf: Bytes, n: nat, i: nat)
    requires n <= |buf|
    ensures MatchAt(buf[..n], i).Some? ==> MatchAt(buf, i) == MatchAt(buf[..n], i)
    ensures MatchAt(buf, i).Some? && MatchAt(buf, i).value <= n ==> MatchAt(buf[..n], i) == MatchAt(buf, i)
  {
  }

  // The leftmost match of the whole buffer is already the leftmost match of
  // every prefix that contains it, and a prefix that stops short of its end
  // has no match at all: reading on never moves an event boundary.
  lemma SearchInPrefix(buf: Bytes, n: nat)
    requires n <= |buf|
    ensures Search(buf).Some? && Search(buf).value.end <= n ==> Search(buf[..n]) == Search(buf)
    ensures Search(buf).Some? && n < Search(buf).value.end ==> Search(buf[..n]).None?
    ensures Search(buf).None? ==> Search(buf[..n]).None?
  {
    SearchIsLeftmost(buf, 0);
    SearchIsLeftmost(buf[..n], 0);
    if Search(buf[..n]).Some? {
      var early := Search(buf[..n]).value;
      MatchInPrefix(buf, n, early.start);
      assert Search(buf).Some?;
      EndsFirst(buf, Search(buf).value.start, early.start);
    }
    if Search(buf).Some? && Search(buf).value.end <= n {
      var span := Search(buf).value;
      MatchInPrefix(buf, n, span.start);
      forall i | 0 <= i < span.start
        ensures MatchAt(buf[..n], i).None?
      {
        MatchInPrefix(buf, n, i);
        assert MatchAt(buf, i).None?;
      }
      SearchIs(buf[..n], span);
    }
  }

  // Overlapping matches end together, so the match that starts first also ends first.
  lemma EndsFirst(buf: Bytes, i: nat, j: nat)
    requires i <= j
    requires MatchAt(buf, i).Some? && MatchAt(buf, j).Some?
    ensures MatchAt(buf, i).value <= MatchAt(buf, j).value
  {
  }

  lemma SearchStable(buf: Bytes, more: Bytes)
    ensures Search(buf).Some? ==> Search(buf + more) == Search(buf)
    ensures Search(buf).None? && Search(buf + more).Some? ==> |buf| < Search(buf + more).value.end
  {
    assert (buf + more)[..|buf|] == buf;
    SearchIsLeftmost(buf, 0);
    SearchIsLeftmost(buf + more, 0);
    SearchInPrefix(buf + more, |buf|);
    if Search(buf).Some? {
      MatchInPrefix(buf + more, |buf|, Search(buf).value.start);
    }
  }
}
