/** The helpers of `scripts/scapy_preprocessing.py` that differ from those of
    `scripts/preprocessing.py`: `clear_text`, its own `split_headers`, and the
    label test of `spacy_ner`. Its `find_id`, `find_labels` and
    `split_records` are the ones of module Preprocessing. */
module ScapyPreprocessing {
  import opened Wrappers
  import opened Strings
  import opened Seqs

  // ---------------------------------------------------------------------
  // clear_text
  // ---------------------------------------------------------------------

  /** `clear_text`: every tab becomes `". "`, then every newline `" "`. */
  function ClearText(text: string): (r: string)
    ensures '\t' !in r && '\n' !in r
    ensures '\t' !in text && '\n' !in text ==> r == text
  {
    ReplaceChar(ReplaceChar(text, '\t', ". "), '\n', " ")
  }

  /** `clear_text` rewrites one character at a time. */
  lemma ClearTextAppend(a: string, b: string)
    ensures ClearText(a + b) == ClearText(a) + ClearText(b)
  {
    ReplaceCharAppend(a, b, '\t', ". ");
    ReplaceCharAppend(ReplaceChar(a, '\t', ". "), ReplaceChar(b, '\t', ". "), '\n', " ");
  }

  /** What `clear_text` does to a single character. */
  lemma ClearTextChar(c: char)
    ensures c == '\t' ==> ClearText([c]) == ". "
    ensures c == '\n' ==> ClearText([c]) == " "
    ensures c != '\t' && c != '\n' ==> ClearText([c]) == [c]
  {
    assert ReplaceChar(". ", '\n', " ") == ". ";
  }

  /** Cleaning twice is cleaning once. */
  lemma ClearTextIdempotent(text: string)
    ensures ClearText(ClearText(text)) == ClearText(text)
  {
  }

  // ---------------------------------------------------------------------
  // split_headers
  // ---------------------------------------------------------------------

  const CONTENT_TYPE := "Content-Type:"

  /** `split_headers` of `scripts/scapy_preprocessing.py`. The pair
      `(None, None)` is `Success(None)`: it is returned when `Content-Type:`
      is absent, and when the three-name unpacking of the split fails, which
      the bare `except` absorbs. With exactly two occurrences the body is
      the text after the second one minus its first line;
      `body.split("\n", 1)[1]` raises `IndexError` when that text has no
      newline. */
  function ScapySplitHeaders(doc: string): (r: Result<Option<(string, string)>, PyError>)
    ensures r == Success(None) <==> Occurrences(doc, CONTENT_TYPE) != 2
    ensures r.Failure? ==> r.error == IndexError
  {
    if Contains(doc, CONTENT_TYPE) then
      var parts := Split(doc, CONTENT_TYPE);
      if |parts| != 3 then Success(None)
      else
        var lines := SplitOnce(parts[2], "\n");
        if |lines| < 2 then Failure(IndexError)
        else Success(Some((parts[0], lines[1])))
    else
      Success(None)
  }

  /** The three pieces of a document with exactly two `Content-Type:`. */
  lemma ThreePieces(doc: string) returns (headers: string, mid: string, tail: string)
    requires Occurrences(doc, CONTENT_TYPE) == 2
    ensures doc == headers + CONTENT_TYPE + mid + CONTENT_TYPE + tail
    ensures !Contains(headers, CONTENT_TYPE) && !Contains(mid, CONTENT_TYPE)
    ensures !Contains(tail, CONTENT_TYPE)
    ensures Split(doc, CONTENT_TYPE) == [headers, mid, tail]
  {
    var parts := Split(doc, CONTENT_TYPE);
    headers, mid, tail := parts[0], parts[1], parts[2];
    assert parts == [headers, mid, tail];
    assert parts[1..] == [mid, tail] && parts[1..][1..] == [tail];
    assert Join([mid, tail], CONTENT_TYPE) == mid + CONTENT_TYPE + tail;
    assert Join(parts, CONTENT_TYPE) == headers + CONTENT_TYPE + Join([mid, tail], CONTENT_TYPE);
  }

  /** With exactly two occurrences the document splits into `headers`,
      `mid` and `tail`. The call fails exactly when `tail` has no newline;
      otherwise it returns `headers` and the text of `tail` after its first
      newline. */
  lemma ScapySplitHeadersTwice(doc: string) returns (headers: string, mid: string, tail: string)
    requires Occurrences(doc, CONTENT_TYPE) == 2
    ensures Split(doc, CONTENT_TYPE) == [headers, mid, tail]
    ensures doc == headers + CONTENT_TYPE + mid + CONTENT_TYPE + tail
    ensures !Contains(headers, CONTENT_TYPE) && !Contains(mid, CONTENT_TYPE)
    ensures !Contains(tail, CONTENT_TYPE)
    ensures var r := ScapySplitHeaders(doc);
      && (r.Failure? <==> !Contains(tail, "\n"))
      && (r.Success? ==>
            && r.value.Some? && r.value.value.0 == headers
            && exists line: string ::
                 tail == line + "\n" + r.value.value.1 && !Contains(line, "\n"))
  {
    headers, mid, tail := ThreePieces(doc);
    var lines := SplitOnce(tail, "\n");
    if |lines| == 2 {
      assert tail == lines[0] + "\n" + lines[1];
    }
  }

  /** `Content-Type:` cannot overlap itself, since its `C` occurs only at its
      start: no occurrence in `headers + CONTENT_TYPE + rest` starts inside
      `headers` when `headers` has none of its own. */
  lemma NotInHeaders(headers: string, rest: string, j: nat)
    requires !Contains(headers, CONTENT_TYPE) && j < |headers|
    ensures !OccursAt(headers + CONTENT_TYPE + rest, CONTENT_TYPE, j)
  {
    var doc := headers + CONTENT_TYPE + rest;
    var i := |headers|;
    var n := |CONTENT_TYPE|;
    assert !OccursAt(headers, CONTENT_TYPE, j);
    assert j + n <= i ==> doc[j..j + n] == headers[j..j + n];
    assert j + n > i && j + n <= |doc| ==> doc[j..j + n][i - j] == doc[i] == 'C';
    assert forall d :: 0 < d < n ==> CONTENT_TYPE[d] != 'C';
  }

  /** So the first occurrence is the one right after `headers`. */
  lemma FirstContentType(headers: string, rest: string)
    requires !Contains(headers, CONTENT_TYPE)
    ensures IndexOf(headers + CONTENT_TYPE + rest, CONTENT_TYPE) == Some(|headers|)
  {
    var doc := headers + CONTENT_TYPE + rest;
    assert doc[|headers|..|headers| + |CONTENT_TYPE|] == CONTENT_TYPE;
    assert OccursAt(doc, CONTENT_TYPE, |headers|);
    forall j: nat | j < |headers| ensures !OccursAt(doc, CONTENT_TYPE, j) {
      NotInHeaders(headers, rest, j);
    }
  }

  /** Once is not enough: a single `Content-Type:` gives `(None, None)`. */
  lemma ScapySplitHeadersOnce(headers: string, rest: string)
    requires !Contains(headers, CONTENT_TYPE) && !Contains(rest, CONTENT_TYPE)
    ensures ScapySplitHeaders(headers + CONTENT_TYPE + rest) == Success(None)
  {
    var doc := headers + CONTENT_TYPE + rest;
    FirstContentType(headers, rest);
    var j := SplitUnfold(doc, CONTENT_TYPE);
    assert doc[j + |CONTENT_TYPE|..] == rest;
    assert |Split(rest, CONTENT_TYPE)| == 1;
  }

  // ---------------------------------------------------------------------
  // The spaCy entity-type filter
  // ---------------------------------------------------------------------

  /** `spacy_ner_types`: the entity types worth linking. */
  const SPACY_NER_TYPES: seq<string> :=
    ["PERSON", "NORP", "FAC", "ORG", "GPE", "LOC", "PRODUCT", "EVENT", "WORK_OF_ART", "LANGUAGE"]

  predicate IsLinkable(entity: (string, string))
  {
    entity.1 in SPACY_NER_TYPES
  }

  /** The `(text, label)` pairs that `spacy_ner` yields from the entities the
      recogniser found, in their order. */
  function NerFilter(entities: seq<(string, string)>): (r: seq<(string, string)>)
    ensures forall e :: e in r <==> e in entities && e.1 in SPACY_NER_TYPES
    ensures forall e :: multiset(r)[e] == if e.1 in SPACY_NER_TYPES then multiset(entities)[e] else 0
    ensures IsSubsequence(r, entities)
  {
    FilterIsSubsequence(IsLinkable, entities);
    FilterMultiset(IsLinkable, entities);
    Filter(IsLinkable, entities)
  }

  /** A date is not linked; a person is. */
  lemma NerFilterDate(text: string)
    ensures NerFilter([(text, "DATE")]) == []
    ensures NerFilter([(text, "PERSON")]) == [(text, "PERSON")]
  {
    assert "DATE" !in SPACY_NER_TYPES by {
      forall k | 0 <= k < |SPACY_NER_TYPES| ensures SPACY_NER_TYPES[k] != "DATE" {
        assert SPACY_NER_TYPES[k][0] != 'D' || |SPACY_NER_TYPES[k]| != 4;
      }
    }
    assert SPACY_NER_TYPES[0] == "PERSON";
  }

  /** Entities that are all of linkable types pass unchanged. */
  lemma NerFilterAllLinkable(entities: seq<(string, string)>)
    ensures NerFilter(entities) == entities <==> forall e :: e in entities ==> e.1 in SPACY_NER_TYPES
  {
    FilterAllPass(IsLinkable, entities);
  }
}
