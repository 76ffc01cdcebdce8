/** The record and text helpers of the preprocessing scripts: reading the
    WARC-TREC-ID of a record, matching labels in a payload, splitting a WARC
    stream into records, dropping comment blocks, splitting headers from the
    body, and cleaning tokens. The same `find_id`, `find_labels`,
    `split_records`, `remove_code_blocks` and `split_headers` are copied,
    character for character, into scripts/main.py, and the first three into
    scripts/scapy_preprocessing.py; this module defines each once. */
module Preprocessing {
  import opened Wrappers
  import opened Strings
  import opened Seqs

  /** The header whose value names a record. */
  const KEYNAME := "WARC-TREC-ID"
  /** What separates a header's name from its value. */
  const FIELD_SEPARATOR := ": "
  /** The line (after stripping) that starts every WARC record. */
  const RECORD_MARKER := "WARC/1.0"
  /** The header `split_headers` cuts the document at. */
  const HTML_CONTENT_TYPE := "Content-Type: text/html; charset=UTF-8"
  /** The lines that open and close a comment block. */
  const BLOCK_OPEN := "<!--"
  const BLOCK_CLOSE := "//-->"

  // ---------------------------------------------------------------------
  // find_id and find_labels
  // ---------------------------------------------------------------------

  predicate IsKeyLine(line: string)
  {
    StartsWith(line, KEYNAME)
  }

  /** `line.split(': ')[1]`: the text after the first `": "`, up to the next
      `": "` or the end of the line; `IndexError` when there is no `": "`. */
  function FieldValue(line: string): (r: Result<string, PyError>)
    ensures r.Failure? <==> !Contains(line, FIELD_SEPARATOR)
    ensures r.Failure? ==> r.error == IndexError
    ensures r.Success? ==>
      var rest := line[IndexOf(line, FIELD_SEPARATOR).value + 2..];
      && StartsWith(rest, r.value)
      && !Contains(r.value, FIELD_SEPARATOR)
      && (|r.value| == |rest| || OccursAt(rest, FIELD_SEPARATOR, |r.value|))
  {
    var parts := Split(line, FIELD_SEPARATOR);
    if |parts| < 2 then Failure(IndexError)
    else
      SplitSecond(line, FIELD_SEPARATOR);
      Success(parts[1])
  }

  /** The value of the first of `lines` that starts with `WARC-TREC-ID`,
      or `None` when no line does. */
  function KeyValue(lines: seq<string>): (r: Result<Option<string>, PyError>)
  {
    match FirstIndex(IsKeyLine, lines)
    case None => Success(None)
    case Some(i) =>
      match FieldValue(lines[i])
      case Failure(e) => Failure(e)
      case Success(v) => Success(Some(v))
  }

  /** What `find_id` returns or raises for a payload. */
  function WarcId(payload: string): (r: Result<Option<string>, PyError>)
  {
    KeyValue(SplitLines(payload))
  }

  /** `find_id` returns `None` exactly when no line starts with the key,
      raises exactly when the first such line has no `": "`, and otherwise
      returns that line's value. */
  lemma KeyValueCases(lines: seq<string>)
    ensures KeyValue(lines) == Success(None) <==>
      forall j :: 0 <= j < |lines| ==> !IsKeyLine(lines[j])
    ensures forall i ::
      (0 <= i < |lines| && IsKeyLine(lines[i]) && forall j :: 0 <= j < i ==> !IsKeyLine(lines[j])) ==>
      && (KeyValue(lines).Failure? <==> !Contains(lines[i], FIELD_SEPARATOR))
      && (KeyValue(lines).Success? ==> KeyValue(lines) == Success(Some(FieldValue(lines[i]).value)))
  {
    match FirstIndex(IsKeyLine, lines)
    case None =>
    case Some(i) =>
      forall k | 0 <= k < |lines| && IsKeyLine(lines[k])
          && (forall j :: 0 <= j < k ==> !IsKeyLine(lines[j]))
        ensures k == i
      {
      }
  }

  /** `find_id`: scans the lines of the payload for the first one starting
      with `WARC-TREC-ID` and returns its value. */
  method FindId(payload: string) returns (key: Result<Option<string>, PyError>)
    ensures key == WarcId(payload)
  {
    var lines := SplitLines(payload);
    var i := 0;
    while i < |lines|
      invariant 0 <= i <= |lines|
      invariant forall j :: 0 <= j < i ==> !IsKeyLine(lines[j])
    {
      if StartsWith(lines[i], KEYNAME) {
        assert FirstIndex(IsKeyLine, lines) == Some(i);
        var parts := Split(lines[i], FIELD_SEPARATOR);
        if |parts| < 2 {
          return Failure(IndexError);
        }
        return Success(Some(parts[1]));
      }
      i := i + 1;
    }
    return Success(None);
  }

  /** `find_labels`: for a record whose key is a non-empty string, one
      `(key, label, id)` triple for every label of the dictionary that occurs
      in the payload. The dictionary is a map here, so the triples may come
      in any order; Python 3 gives them in the dictionary's insertion order. */
  method FindLabels(payload: string, labels: map<string, string>)
    returns (r: Result<seq<(string, string, string)>, PyError>)
    ensures WarcId(payload).Failure? ==> r == Failure(WarcId(payload).error)
    ensures WarcId(payload).Success? ==> r.Success?
    ensures r.Success? ==> forall a, b :: 0 <= a < b < |r.value| ==> r.value[a] != r.value[b]
    ensures r.Success? ==> forall t :: t in r.value <==>
      && WarcId(payload) == Success(Some(t.0)) && t.0 != ""
      && t.1 in labels && labels[t.1] == t.2 && Contains(payload, t.1)
  {
    var key :- FindId(payload);
    var found: seq<(string, string, string)> := [];
    var todo := labels.Keys;
    while todo != {}
      invariant todo <= labels.Keys
      invariant forall a, b :: 0 <= a < b < |found| ==> found[a] != found[b]
      invariant forall t :: t in found <==>
        && key == Some(t.0) && t.0 != ""
        && t.1 in labels && t.1 !in todo && labels[t.1] == t.2 && Contains(payload, t.1)
      decreases todo
    {
      var name :| name in todo;
      if key.Some? && key.value != "" && Contains(payload, name) {
        found := found + [(key.value, name, labels[name])];
      }
      todo := todo - {name};
    }
    return Success(found);
  }

  // ---------------------------------------------------------------------
  // split_records
  // ---------------------------------------------------------------------

  predicate IsMarker(line: string)
  {
    Strip(line) == RECORD_MARKER
  }

  /** The payloads `split_records` yields for a stream of lines, with
      `isMarker` telling the marker lines apart: for every marker line, the
      concatenation of the lines since the previous marker (or the start).
      What follows the last marker is not a payload. The properties below
      hold for any marker test; `split_records` uses IsMarker. */
  function Records(isMarker: string -> bool, lines: seq<string>): (records: seq<string>)
    ensures |records| <= |lines|
    decreases |lines|
  {
    match FirstIndex(isMarker, lines)
    case None => []
    case Some(j) => [Concat(lines[..j])] + Records(isMarker, lines[j + 1..])
  }

  /** No line of `lines` is a marker line. */
  predicate NoMarker(isMarker: string -> bool, lines: seq<string>)
  {
    forall j :: 0 <= j < |lines| ==> !isMarker(lines[j])
  }

  lemma RecordsWithoutMarker(isMarker: string -> bool, pending: seq<string>)
    requires NoMarker(isMarker, pending)
    ensures Records(isMarker, pending) == []
  {
  }

  /** What a marker line does to the loop's invariant. */
  lemma MarkerStep(isMarker: string -> bool, done: seq<string>, pending: seq<string>, stream: seq<string>, i: nat)
    requires i < |stream| && isMarker(stream[i])
    requires NoMarker(isMarker, pending)
    ensures done + Records(isMarker, pending + stream[i..])
      == (done + [Concat(pending)]) + Records(isMarker, [] + stream[i + 1..])
  {
    var s := pending + stream[i..];
    assert s[|pending|] == stream[i];
    assert s[..|pending|] == pending;
    assert s[|pending| + 1..] == [] + stream[i + 1..];
    RecordsSplitAt(isMarker, s, |pending|);
  }

  /** What any other line does to it. */
  lemma PendingStep(isMarker: string -> bool, pending: seq<string>, stream: seq<string>, i: nat)
    requires i < |stream| && !isMarker(stream[i])
    requires NoMarker(isMarker, pending)
    ensures NoMarker(isMarker, pending + [stream[i]])
    ensures Concat(pending + [stream[i]]) == Concat(pending) + stream[i]
    ensures pending + stream[i..] == (pending + [stream[i]]) + stream[i + 1..]
  {
    ConcatAppend(pending, [stream[i]]);
    assert Concat([stream[i]]) == stream[i];
    ConsumeHead(pending, stream, i);
  }

  /** The loop of `split_records`, for a given marker test. */
  method SplitRecordsWith(isMarker: string -> bool, stream: seq<string>) returns (records: seq<string>)
    ensures records == Records(isMarker, stream)
  {
    records := [];
    var payload := "";
    ghost var pending: seq<string> := [];
    assert pending + stream[0..] == stream;
    for i := 0 to |stream|
      invariant payload == Concat(pending)
      invariant NoMarker(isMarker, pending)
      invariant Records(isMarker, stream) == records + Records(isMarker, pending + stream[i..])
    {
      if isMarker(stream[i]) {
        MarkerStep(isMarker, records, pending, stream, i);
        records := records + [payload];
        payload := "";
        pending := [];
      } else {
        PendingStep(isMarker, pending, stream, i);
        payload := payload + stream[i];
        pending := pending + [stream[i]];
      }
    }
    assert pending + stream[|stream|..] == pending;
    RecordsWithoutMarker(isMarker, pending);
  }

  /** `split_records` over a stream given as its sequence of lines (each
      with its line terminator, as a file yields them): a record starts at
      every line that strips to `WARC/1.0`. */
  method SplitRecords(stream: seq<string>) returns (records: seq<string>)
    ensures records == Records(IsMarker, stream)
  {
    records := SplitRecordsWith(IsMarker, stream);
  }

  /** One payload per marker line. */
  lemma {:induction false} RecordsCount(isMarker: string -> bool, lines: seq<string>)
    ensures |Records(isMarker, lines)| == |Filter(isMarker, lines)|
    decreases |lines|
  {
    match FirstIndex(isMarker, lines)
    case None =>
      FilterSkip(isMarker, lines, |lines|);
      assert lines[|lines|..] == [];
    case Some(j) =>
      RecordsCount(isMarker, lines[j + 1..]);
      FilterSkip(isMarker, lines, j);
      assert lines[j..][1..] == lines[j + 1..];
  }

  /** Lines after the last marker never reach a payload. */
  lemma {:induction false} RecordsIgnoreTrailing(isMarker: string -> bool, lines: seq<string>, tail: seq<string>)
    requires NoMarker(isMarker, tail)
    ensures Records(isMarker, lines + tail) == Records(isMarker, lines)
    decreases |lines|
  {
    match FirstIndex(isMarker, lines)
    case None =>
      NoMarkerAppend(isMarker, lines, tail);
      RecordsWithoutMarker(isMarker, lines + tail);
    case Some(j) =>
      var s := lines + tail;
      assert s[..j] == lines[..j] && s[j] == lines[j];
      assert s[j + 1..] == lines[j + 1..] + tail;
      NoMarkerPrefix(isMarker, lines, j);
      RecordsSplitAt(isMarker, s, j);
      RecordsIgnoreTrailing(isMarker, lines[j + 1..], tail);
  }

  lemma NoMarkerAppend(isMarker: string -> bool, a: seq<string>, b: seq<string>)
    requires NoMarker(isMarker, a) && NoMarker(isMarker, b)
    ensures NoMarker(isMarker, a + b)
  {
    forall j | 0 <= j < |a + b| ensures !isMarker((a + b)[j]) {
      if j >= |a| { assert (a + b)[j] == b[j - |a|]; }
    }
  }

  lemma NoMarkerPrefix(isMarker: string -> bool, lines: seq<string>, j: nat)
    requires j <= |lines|
    requires forall k :: 0 <= k < j ==> !isMarker(lines[k])
    ensures NoMarker(isMarker, lines[..j])
  {
    assert forall k :: 0 <= k < j ==> lines[..j][k] == lines[k];
  }

  /** Where the first marker is at `j`, the first payload is everything
      before it. */
  lemma RecordsSplitAt(isMarker: string -> bool, s: seq<string>, j: nat)
    requires j < |s| && isMarker(s[j]) && NoMarker(isMarker, s[..j])
    ensures Records(isMarker, s) == [Concat(s[..j])] + Records(isMarker, s[j + 1..])
  {
    assert forall k :: 0 <= k < j ==> s[..j][k] == s[k];
    FirstIndexAt(isMarker, s, j);
  }

  /** `lines[a..b]` is a run of non-marker lines ended by the marker at `b`. */
  predicate MarkedRun(isMarker: string -> bool, lines: seq<string>, a: nat, b: nat)
  {
    && a <= b < |lines| && isMarker(lines[b])
    && (forall j :: a <= j < b ==> !isMarker(lines[j]))
  }

  lemma MarkedRunShift(isMarker: string -> bool, lines: seq<string>, m: nat, a: nat, b: nat)
    requires m < |lines|
    requires MarkedRun(isMarker, lines[m + 1..], a, b)
    ensures MarkedRun(isMarker, lines, m + 1 + a, m + 1 + b)
    ensures lines[m + 1..][a..b] == lines[m + 1 + a..m + 1 + b]
  {
    var rest := lines[m + 1..];
    assert forall j :: m + 1 + a <= j < m + 1 + b ==> lines[j] == rest[j - m - 1];
  }

  /** Every payload is the concatenation of a run of non-marker lines that
      ends just before a marker line: no marker line is part of a payload. */
  lemma {:induction false} RecordsAreMarkerFree(isMarker: string -> bool, lines: seq<string>, k: nat)
    requires k < |Records(isMarker, lines)|
    ensures exists a: nat, b: nat ::
      MarkedRun(isMarker, lines, a, b) && Records(isMarker, lines)[k] == Concat(lines[a..b])
    decreases |lines|
  {
    match FirstIndex(isMarker, lines)
    case None =>
    case Some(m) =>
      if k == 0 {
        assert lines[0..m] == lines[..m];
        assert MarkedRun(isMarker, lines, 0, m);
        assert Records(isMarker, lines)[0] == Concat(lines[0..m]);
      } else {
        var rest := lines[m + 1..];
        var later := Records(isMarker, rest);
        assert Records(isMarker, lines) == [Concat(lines[..m])] + later;
        RecordsAreMarkerFree(isMarker, rest, k - 1);
        var a: nat, b: nat :| MarkedRun(isMarker, rest, a, b) && later[k - 1] == Concat(rest[a..b]);
        MarkedRunShift(isMarker, lines, m, a, b);
        assert MarkedRun(isMarker, lines, m + 1 + a, m + 1 + b)
          && Records(isMarker, lines)[k] == Concat(lines[m + 1 + a..m + 1 + b]);
      }
  }

  // ---------------------------------------------------------------------
  // remove_code_blocks
  // ---------------------------------------------------------------------

  predicate Opens(line: string)
  {
    StartsWith(line, BLOCK_OPEN)
  }

  predicate Closes(line: string)
  {
    StartsWith(line, BLOCK_CLOSE)
  }

  /** After the first `n` lines the scan is inside a comment block: some
      line among them opened one, and no later line among them closed it. */
  ghost predicate InBlock(lines: seq<string>, n: nat)
    requires n <= |lines|
  {
    exists j :: 0 <= j < n && Opens(lines[j]) && NoCloseBetween(lines, j, n)
  }

  /** No line strictly between `j` and `n` closes a block. */
  ghost predicate NoCloseBetween(lines: seq<string>, j: nat, n: nat)
    requires n <= |lines|
  {
    forall k :: j < k < n ==> !Closes(lines[k])
  }

  /** Line `i` survives: it neither opens nor closes a block, and it is not
      inside one. */
  ghost predicate Kept(lines: seq<string>, i: nat)
    requires i < |lines|
  {
    !Opens(lines[i]) && !Closes(lines[i]) && !InBlock(lines, i)
  }

  /** The surviving lines among the first `n`, in order. */
  ghost function CodeFree(lines: seq<string>, n: nat): (kept: seq<string>)
    requires n <= |lines|
    ensures |kept| <= n
    ensures forall x :: x in kept ==> x in lines[..n]
  {
    if n == 0 then []
    else CodeFree(lines, n - 1) + (if Kept(lines, n - 1) then [lines[n - 1]] else [])
  }

  lemma InBlockStep(lines: seq<string>, n: nat)
    requires n < |lines|
    ensures InBlock(lines, n + 1) <==> Opens(lines[n]) || (!Closes(lines[n]) && InBlock(lines, n))
  {
    if Opens(lines[n]) {
      assert NoCloseBetween(lines, n, n + 1);
    }
    if InBlock(lines, n) && !Closes(lines[n]) {
      var j :| 0 <= j < n && Opens(lines[j]) && NoCloseBetween(lines, j, n);
      assert NoCloseBetween(lines, j, n + 1);
    }
    if InBlock(lines, n + 1) && !Opens(lines[n]) {
      var j :| 0 <= j < n + 1 && Opens(lines[j]) && NoCloseBetween(lines, j, n + 1);
      assert j < n;
      assert NoCloseBetween(lines, j, n);
    }
  }

  /** `remove_code_blocks`: the lines of the text, without comment blocks
      and without the lines that open or close them. */
  method RemoveCodeBlocks(text: string) returns (newLines: seq<string>)
    ensures newLines == CodeFree(SplitLines(text), |SplitLines(text)|)
  {
    var textLines := SplitLines(text);
    newLines := [];
    var codeBlock := false;
    for i := 0 to |textLines|
      invariant newLines == CodeFree(textLines, i)
      invariant codeBlock == InBlock(textLines, i)
    {
      InBlockStep(textLines, i);
      var line := textLines[i];
      if StartsWith(line, BLOCK_OPEN) {
        codeBlock := true;
      } else if StartsWith(line, BLOCK_CLOSE) {
        codeBlock := false;
      } else if !codeBlock {
        newLines := newLines + [line];
      }
    }
  }

  /** The result keeps the input's order, holds no opening or closing line,
      and drops every line inside a block. */
  lemma {:induction false} CodeFreeProperties(lines: seq<string>, n: nat)
    requires n <= |lines|
    ensures IsSubsequence(CodeFree(lines, n), lines[..n])
    ensures forall l :: l in CodeFree(lines, n) ==> !Opens(l) && !Closes(l)
    ensures forall i :: 0 <= i < n && InBlock(lines, i) ==> |CodeFree(lines, i + 1)| == |CodeFree(lines, i)|
  {
    if n > 0 {
      CodeFreeProperties(lines, n - 1);
      assert lines[..n] == lines[..n - 1] + [lines[n - 1]];
      SubsequenceExtend(CodeFree(lines, n - 1), lines[..n - 1], lines[n - 1], Kept(lines, n - 1));
    }
  }

  // ---------------------------------------------------------------------
  // split_headers
  // ---------------------------------------------------------------------

  /** `split_headers`: the text before and after the one occurrence of the
      HTML content-type header. With no occurrence the function reads the
      unassigned `headers` (`UnboundLocalError`); with two or more, unpacking
      the split into two names fails (`ValueError`). */
  function SplitHeaders(doc: string): (r: Result<(string, string), PyError>)
    ensures !Contains(doc, HTML_CONTENT_TYPE) ==> r == Failure(UnboundLocalError)
    ensures Occurrences(doc, HTML_CONTENT_TYPE) >= 2 ==> r == Failure(ValueError)
    ensures r.Success? <==> Occurrences(doc, HTML_CONTENT_TYPE) == 1
    ensures r.Success? ==>
      && r.value.0 + HTML_CONTENT_TYPE + r.value.1 == doc
      && !Contains(r.value.0, HTML_CONTENT_TYPE)
      && !Contains(r.value.1, HTML_CONTENT_TYPE)
  {
    if Contains(doc, HTML_CONTENT_TYPE) then
      var parts := Split(doc, HTML_CONTENT_TYPE);
      if |parts| == 2 then
        assert parts[1..] == [parts[1]];
        Success((parts[0], parts[1]))
      else Failure(ValueError)
    else Failure(UnboundLocalError)
  }

  // ---------------------------------------------------------------------
  // Token cleaning
  // ---------------------------------------------------------------------

  /** `str.isdigit`, restricted to ASCII digits. */
  predicate IsDigit(c: char)
  {
    '0' <= c <= '9'
  }

  predicate IsNotDigit(c: char)
  {
    !IsDigit(c)
  }

  /** A character of `\w` other than `_`, restricted to ASCII. */
  predicate IsAlphanumeric(c: char)
  {
    ('a' <= c <= 'z') || ('A' <= c <= 'Z') || IsDigit(c)
  }

  /** `remove_number_from_string`: the token without its digits. */
  function RemoveNumberFromString(token: string): (r: string)
    ensures forall c :: c in r <==> c in token && !IsDigit(c)
    ensures forall c :: multiset(r)[c] == if IsDigit(c) then 0 else multiset(token)[c]
    ensures IsSubsequence(r, token)
  {
    FilterIsSubsequence(IsNotDigit, token);
    FilterMultiset(IsNotDigit, token);
    Filter(IsNotDigit, token)
  }

  lemma RemoveNumberIdempotent(token: string)
    ensures RemoveNumberFromString(RemoveNumberFromString(token)) == RemoveNumberFromString(token)
  {
    FilterIdempotent(IsNotDigit, token);
  }

  /** `remove_alphanumeric`: `re.sub('[\W_]+', '', token)`, which keeps the
      letters and digits and drops everything else. */
  function RemoveAlphanumeric(token: string): (r: string)
    ensures forall c :: c in r <==> c in token && IsAlphanumeric(c)
    ensures forall c :: multiset(r)[c] == if IsAlphanumeric(c) then multiset(token)[c] else 0
    ensures IsSubsequence(r, token)
  {
    FilterIsSubsequence(IsAlphanumeric, token);
    FilterMultiset(IsAlphanumeric, token);
    Filter(IsAlphanumeric, token)
  }

  lemma RemoveAlphanumericIdempotent(token: string)
    ensures RemoveAlphanumeric(RemoveAlphanumeric(token)) == RemoveAlphanumeric(token)
  {
    FilterIdempotent(IsAlphanumeric, token);
  }

  /** The two cleaning steps applied one after the other leave only ASCII
      letters. */
  lemma CleanedTokenIsLetters(token: string)
    ensures forall c :: c in RemoveNumberFromString(RemoveAlphanumeric(token)) ==>
      ('a' <= c <= 'z') || ('A' <= c <= 'Z')
  {
  }

  /** A digit followed by an upper-case hex letter. */
  predicate IsHexPair(a: char, b: char)
  {
    IsDigit(a) && 'A' <= b <= 'F'
  }

  predicate HasHexPair(s: string)
  {
    exists i :: 0 <= i < |s| - 1 && IsHexPair(s[i], s[i + 1])
  }

  /** `remove_hex_from_string`: `re.sub('[0-9][A-F]', '', token)`, which
      deletes non-overlapping digit-letter pairs scanning from the left. */
  function RemoveHexFromString(token: string): (r: string)
    ensures |r| <= |token|
    ensures IsSubsequence(r, token)
    decreases |token|
  {
    if |token| >= 2 && IsHexPair(token[0], token[1]) then
      var rest := RemoveHexFromString(token[2..]);
      assert token[1..][1..] == token[2..];
      assert IsSubsequence(rest, token[1..]);
      rest
    else if token == [] then []
    else
      var rest := RemoveHexFromString(token[1..]);
      assert ([token[0]] + rest)[1..] == rest;
      [token[0]] + rest
  }

  /** The left-to-right scan: everything before the first digit-letter pair
      is kept, that pair is deleted, and the scan goes on after it. With
      RemoveHexUnchanged for a token with no pair, this fixes the result of
      every token. */
  lemma {:induction false} RemoveHexScan(token: string, i: nat)
    requires i + 1 < |token| && IsHexPair(token[i], token[i + 1])
    requires forall j :: 0 <= j < i ==> !IsHexPair(token[j], token[j + 1])
    ensures RemoveHexFromString(token) == token[..i] + RemoveHexFromString(token[i + 2..])
    decreases i
  {
    if i > 0 {
      assert !IsHexPair(token[0], token[1]);
      var tail := token[1..];
      forall j | 0 <= j < i - 1
        ensures !IsHexPair(tail[j], tail[j + 1])
      {
        assert tail[j] == token[j + 1] && tail[j + 1] == token[j + 2];
      }
      assert tail[i - 1] == token[i] && tail[i] == token[i + 1];
      RemoveHexScan(tail, i - 1);
      assert tail[..i - 1] == token[1..i] && tail[i + 1..] == token[i + 2..];
      var after := RemoveHexFromString(token[i + 2..]);
      assert RemoveHexFromString(token) == [token[0]] + (token[1..i] + after);
      assert token[..i] == [token[0]] + token[1..i];
    } else {
      assert token[..0] == [];
    }
  }

  lemma HasHexPairTail(token: string)
    requires token != []
    ensures HasHexPair(token[1..]) ==> HasHexPair(token)
  {
    if HasHexPair(token[1..]) {
      var i :| 0 <= i < |token[1..]| - 1 && IsHexPair(token[1..][i], token[1..][i + 1]);
      assert IsHexPair(token[i + 1], token[i + 2]);
    }
  }

  /** A token is left unchanged exactly when it holds no digit-letter pair;
      otherwise it gets shorter. */
  lemma {:induction false} RemoveHexUnchanged(token: string)
    ensures RemoveHexFromString(token) == token <==> !HasHexPair(token)
    ensures HasHexPair(token) ==> |RemoveHexFromString(token)| < |token|
    decreases |token|
  {
    if |token| >= 2 && IsHexPair(token[0], token[1]) {
      assert HasHexPair(token);
    } else if token != [] {
      RemoveHexUnchanged(token[1..]);
      HasHexPairTail(token);
      if HasHexPair(token) {
        var i :| 0 <= i < |token| - 1 && IsHexPair(token[i], token[i + 1]);
        assert i > 0;
        assert token[1..][i - 1] == token[i] && token[1..][i] == token[i + 1];
        assert HasHexPair(token[1..]);
      } else {
        assert token == [token[0]] + token[1..];
      }
    }
  }

  /** The substitution is one pass: a deletion can bring a new pair
      together, so applying it twice can remove more than applying it once. */
  lemma RemoveHexNotIdempotent()
    ensures RemoveHexFromString("11AA") == "1A"
    ensures RemoveHexFromString(RemoveHexFromString("11AA")) == ""
  {
    assert RemoveHexFromString("A") == "A";
    assert RemoveHexFromString("1AA") == "A";
    assert "11AA"[1..] == "1AA";
  }

  /** `remove_stop_words`: the tagged tokens whose word is not a stop word.
      The stop-word set (NLTK's English list) is a parameter. */
  function RemoveStopWords(tagged: seq<(string, string)>, stopWords: set<string>): (r: seq<(string, string)>)
    ensures forall w :: w in r <==> w in tagged && w.0 !in stopWords
    ensures forall w :: multiset(r)[w] == if w.0 in stopWords then 0 else multiset(tagged)[w]
    ensures IsSubsequence(r, tagged)
  {
    FilterIsSubsequence(NotStopWord(stopWords), tagged);
    FilterMultiset(NotStopWord(stopWords), tagged);
    Filter(NotStopWord(stopWords), tagged)
  }

  function NotStopWord(stopWords: set<string>): ((string, string)) -> bool
  {
    (w: (string, string)) => w.0 !in stopWords
  }

  // ---------------------------------------------------------------------
  // group_consecutive_groups
  // ---------------------------------------------------------------------

  /** One group of `itertools.groupby` keyed by the POS tag. */
  datatype Run = Run(tag: string, words: seq<string>)

  /** The tagged tokens a run stands for. */
  function Expand(run: Run): seq<(string, string)>
  {
    seq(|run.words|, i requires 0 <= i < |run.words| => (run.words[i], run.tag))
  }

  function Flatten(runs: seq<Run>): seq<(string, string)>
  {
    if runs == [] then [] else Expand(runs[0]) + Flatten(runs[1..])
  }

  /** `groupby(tagged, key=tag)`: the maximal runs of consecutive tokens
      with equal tags. The runs are non-empty, neighbours differ in tag, and
      expanding them gives back the input. */
  function Runs(tagged: seq<(string, string)>): (runs: seq<Run>)
    ensures WellGrouped(runs)
    ensures Flatten(runs) == tagged
    ensures tagged != [] ==> runs != [] && runs[0].tag == tagged[0].1
  {
    if tagged == [] then []
    else
      assert tagged == [tagged[0]] + tagged[1..];
      Prepend(tagged[0].0, tagged[0].1, Runs(tagged[1..]))
  }

  /** Runs are non-empty and neighbouring runs differ in tag. */
  predicate WellGrouped(runs: seq<Run>)
  {
    && (forall k :: 0 <= k < |runs| ==> |runs[k].words| > 0)
    && (forall k :: 0 <= k < |runs| - 1 ==> runs[k].tag != runs[k + 1].tag)
  }

  /** The runs of a token followed by tokens already grouped into `rest`:
      the token joins the first run when the tags agree. */
  function Prepend(word: string, tag: string, rest: seq<Run>): (runs: seq<Run>)
    requires WellGrouped(rest)
    ensures WellGrouped(runs)
    ensures Flatten(runs) == [(word, tag)] + Flatten(rest)
    ensures runs != [] && runs[0].tag == tag
  {
    if rest != [] && rest[0].tag == tag then
      var merged := Run(tag, [word] + rest[0].words);
      ExpandCons(word, tag, rest[0].words);
      FlattenCons(rest[0], rest[1..]);
      FlattenCons(merged, rest[1..]);
      [merged] + rest[1..]
    else
      var single := Run(tag, [word]);
      ExpandCons(word, tag, []);
      FlattenCons(single, rest);
      [single] + rest
  }

  lemma ExpandCons(word: string, tag: string, words: seq<string>)
    ensures Expand(Run(tag, [word] + words)) == [(word, tag)] + Expand(Run(tag, words))
  {
  }

  lemma FlattenCons(run: Run, rest: seq<Run>)
    ensures Flatten([run] + rest) == Expand(run) + Flatten(rest)
  {
    assert ([run] + rest)[1..] == rest;
  }

  /** The name one run contributes: its words joined by spaces when it is an
      `NNP` run of at least two tokens, and nothing otherwise. */
  function RunName(run: Run): seq<string>
  {
    if run.tag == "NNP" && |run.words| >= 2 then [Join(run.words, " ")] else []
  }

  /** The space-joined words of the `NNP` runs of at least two tokens. */
  function ProperNames(runs: seq<Run>): (names: seq<string>)
    ensures |names| <= |runs|
  {
    if runs == [] then [] else RunName(runs[0]) + ProperNames(runs[1..])
  }

  /** `group_consecutive_groups`. */
  function GroupConsecutiveGroups(tagged: seq<(string, string)>): (names: seq<string>)
    ensures |names| <= |tagged|
  {
    var runs := Runs(tagged);
    RunsAtMostTokens(runs);
    ProperNames(runs)
  }

  /** `run` is an `NNP` run of two or more tokens whose words, joined by
      spaces, are `name`. */
  predicate NamesRun(run: Run, name: string)
  {
    run.tag == "NNP" && |run.words| >= 2 && name == Join(run.words, " ")
  }

  /** A name comes out exactly for each `NNP` run of two or more tokens, as
      its words joined by spaces; `ProperNamesAppend` gives their order. */
  lemma {:induction false} ProperNamesMeaning(runs: seq<Run>)
    ensures forall k :: 0 <= k < |runs| && runs[k].tag == "NNP" && |runs[k].words| >= 2 ==>
      Join(runs[k].words, " ") in ProperNames(runs)
    ensures forall name :: name in ProperNames(runs) ==> exists k :: 0 <= k < |runs| && NamesRun(runs[k], name)
    ensures (forall k :: 0 <= k < |runs| ==> runs[k].tag != "NNP") ==> ProperNames(runs) == []
  {
    if runs != [] {
      ProperNamesMeaning(runs[1..]);
      var head := if runs[0].tag == "NNP" && |runs[0].words| >= 2 then [Join(runs[0].words, " ")] else [];
      assert ProperNames(runs) == head + ProperNames(runs[1..]);
      forall k | 1 <= k < |runs| ensures runs[k] == runs[1..][k - 1] {
      }
      forall name | name in ProperNames(runs)
        ensures exists k :: 0 <= k < |runs| && NamesRun(runs[k], name)
      {
        if name !in head {
          var k :| 0 <= k < |runs[1..]| && NamesRun(runs[1..][k], name);
          assert runs[k + 1] == runs[1..][k];
        }
      }
    }
  }

  /** One run yields its name when it is an `NNP` run of two or more tokens
      and nothing otherwise. */
  lemma ProperNamesSingle(run: Run)
    ensures ProperNames([run]) == if run.tag == "NNP" && |run.words| >= 2 then [Join(run.words, " ")] else []
  {
    assert [run][1..] == [];
  }

  /** The names of consecutive stretches of runs are the names of the first
      stretch followed by those of the second: with `ProperNamesSingle`, the
      names come out one run at a time, in the order of the runs. */
  lemma {:induction false} ProperNamesAppend(a: seq<Run>, b: seq<Run>)
    ensures ProperNames(a + b) == ProperNames(a) + ProperNames(b)
  {
    if a == [] {
      assert a + b == b;
    } else {
      var head, rest := RunName(a[0]), ProperNames(a[1..]);
      assert ProperNames(a + b) == head + ProperNames(a[1..] + b) by {
        assert (a + b)[0] == a[0] && (a + b)[1..] == a[1..] + b;
      }
      ProperNamesAppend(a[1..], b);
      assert head + (rest + ProperNames(b)) == (head + rest) + ProperNames(b);
    }
  }

  lemma {:induction false} RunsAtMostTokens(runs: seq<Run>)
    requires WellGrouped(runs)
    ensures |runs| <= |Flatten(runs)|
  {
    if runs != [] {
      RunsAtMostTokens(runs[1..]);
    }
  }

  /** A single `NNP` token between tokens of other tags yields no name, and a
      run of two or more yields their words joined by spaces. */
  lemma LoneProperNounDropped(before: (string, string), w: string, after: (string, string))
    requires before.1 != "NNP" && after.1 != "NNP"
    ensures GroupConsecutiveGroups([before, (w, "NNP"), after]) == []
  {
    var t := [before, (w, "NNP"), after];
    assert [after][1..] == [];
    assert Runs([after]) == [Run(after.1, [after.0])];
    assert t[1..] == [(w, "NNP"), after] && t[1..][1..] == [after];
    var r2 := [Run("NNP", [w]), Run(after.1, [after.0])];
    assert Runs(t[1..]) == r2;
    var runs := [Run(before.1, [before.0])] + r2;
    assert Runs(t) == runs;
    assert runs[1..] == r2 && r2[1..] == [Run(after.1, [after.0])];
    assert ProperNames([Run(after.1, [after.0])]) == [];
    assert ProperNames(r2) == [];
  }

  lemma ProperNounPairJoined(a: string, b: string)
    ensures GroupConsecutiveGroups([(a, "NNP"), (b, "NNP")]) == [a + " " + b]
  {
    var t := [(a, "NNP"), (b, "NNP")];
    assert t[1..] == [(b, "NNP")];
    assert [(b, "NNP")][1..] == [];
    assert Runs([(b, "NNP")]) == [Run("NNP", [b])];
    assert [a] + [b] == [a, b];
    assert Runs(t) == [Run("NNP", [a, b])];
    assert [a, b][1..] == [b];
    assert Join([a, b], " ") == a + " " + Join([b], " ");
    assert [Run("NNP", [a, b])][1..] == [];
  }
}
