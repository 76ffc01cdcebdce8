/** The per-mention part of `main` in `scripts/scapy_linker.py`: attach the
    English abstracts to the candidates, filter them, score each one and
    print the best. The noun extractor and the similarity measure are not in
    the repository; they are parameters (`nouns`, `score`), as is the
    document context they compare against. */
module ScapyLinker {
  import opened Wrappers
  import opened Strings
  import opened Seqs
  import opened ScapyEntity
  import opened Linker

  /** The index the running-best loop settles on after the first `n`
      scores: a later score replaces the best only when it is strictly
      greater. */
  function ArgMaxFirst(scores: seq<real>, n: nat): (i: nat)
    requires 0 < n <= |scores|
    ensures i < n
  {
    if n == 1 then 0
    else
      var best := ArgMaxFirst(scores, n - 1);
      if scores[n - 1] > scores[best] then n - 1 else best
  }

  /** That index holds the maximum of the first `n` scores, and it is the
      first index that does. */
  lemma {:induction false} ArgMaxFirstIsMax(scores: seq<real>, n: nat)
    requires 0 < n <= |scores|
    ensures forall j :: 0 <= j < n ==> scores[j] <= scores[ArgMaxFirst(scores, n)]
    ensures forall j :: 0 <= j < ArgMaxFirst(scores, n) ==> scores[j] < scores[ArgMaxFirst(scores, n)]
  {
    if n > 1 {
      ArgMaxFirstIsMax(scores, n - 1);
    }
  }

  /** The running best over the first `i` scores stays the running best over
      `i + 1` when it is replaced only by a strictly greater score. */
  predicate RunningBest(scores: seq<real>, i: nat, best: nat)
  {
    && i <= |scores| && best < |scores| && (i == 0 ==> best == 0) && (i > 0 ==> best < i)
    && (forall j :: 0 <= j < i ==> scores[j] <= scores[best])
    && (forall j :: 0 <= j < best ==> scores[j] < scores[best])
  }

  lemma RunningBestStep(scores: seq<real>, i: nat, best: nat)
    requires i < |scores| && RunningBest(scores, i, best)
    ensures RunningBest(scores, i + 1, if scores[i] > scores[best] then i else best)
  {
  }

  /** Those two properties pin the index down. */
  lemma ArgMaxFirstUnique(scores: seq<real>, n: nat, i: nat)
    requires 0 < n <= |scores| && i < n
    requires forall j :: 0 <= j < n ==> scores[j] <= scores[i]
    requires forall j :: 0 <= j < i ==> scores[j] < scores[i]
    ensures ArgMaxFirst(scores, n) == i
  {
    ArgMaxFirstIsMax(scores, n);
  }

  /** When every candidate scores the same, the first one wins. */
  lemma ArgMaxFirstTies(scores: seq<real>, v: real)
    requires |scores| > 0 && forall k :: 0 <= k < |scores| ==> scores[k] == v
    ensures ArgMaxFirst(scores, |scores|) == 0
  {
    ArgMaxFirstUnique(scores, |scores|, 0);
  }

  /** The score of each text: the similarity of its nouns to the context. */
  function Scores<C>(texts: seq<string>, context: C, nouns: string -> seq<string>, score: (C, seq<string>) -> real)
    : (scores: seq<real>)
  {
    seq(|texts|, k requires 0 <= k < |texts| => score(context, nouns(texts[k])))
  }

  /** What the selection loop leaves in one candidate: the nouns of its
      joined abstracts and their score, with every other field as it was. */
  method ScoreCandidate<C>(candidate: Candidate, context: C, nouns: string -> seq<string>,
                           score: (C, seq<string>) -> real)
    requires candidate.kbAbstract.Some?
    modifies candidate
    ensures candidate.kbAbstract == old(candidate.kbAbstract) && candidate.name == old(candidate.name)
    ensures candidate.kbNouns == Some(nouns(Join(candidate.kbAbstract.value, " ")))
    ensures candidate.similarityScore == Some(score(context, candidate.kbNouns.value))
    ensures candidate.nerLabel == old(candidate.nerLabel) && candidate.freebaseId == old(candidate.freebaseId)
    ensures candidate.freebaseLabel == old(candidate.freebaseLabel)
  {
    var joined := Join(candidate.kbAbstract.value, " ");
    candidate.kbNouns := Some(nouns(joined));
    candidate.similarityScore := Some(score(context, candidate.kbNouns.value));
  }

  /** The fields of a candidate that only `find_candidates` sets: no later
      step of `main` writes them. */
  twostate predicate SameRecord(c: Candidate)
    reads c
  {
    && c.name == old(c.name) && c.nerLabel == old(c.nerLabel)
    && c.freebaseId == old(c.freebaseId) && c.freebaseLabel == old(c.freebaseLabel)
  }

  /** The fields the selection loop leaves alone. */
  twostate predicate KeepsIdentity(c: Candidate)
    reads c
  {
    SameRecord(c) && c.kbAbstract == old(c.kbAbstract)
  }

  /** The fields only the selection loop writes, as they were. */
  twostate predicate Unscored(c: Candidate)
    reads c
  {
    c.kbNouns == old(c.kbNouns) && c.similarityScore == old(c.similarityScore)
  }

  /** A candidate after the filter and the selection loop, given the list of
      English abstracts it holds: the list and the identifying fields are
      as they were, and the candidate is scored, with the nouns of `""`,
      exactly when the list is empty. */
  twostate predicate Linked<C>(c: Candidate, list: seq<string>, context: C,
                               nouns: string -> seq<string>, score: (C, seq<string>) -> real)
    reads c
  {
    && c.kbAbstract == Some(list) && SameRecord(c)
    && (list == [] ==> c.kbNouns == Some(nouns("")) && c.similarityScore == Some(score(context, nouns(""))))
    && (list != [] ==> Unscored(c))
  }

  /** The selection loop: every candidate gets the nouns of its joined
      abstracts and their score, and the result is the first candidate with
      the highest score. Nothing else about the candidates changes. The
      ghost `texts` names the joined abstracts, `" ".join(kb_abstract)`, of
      each candidate. */
  method SelectBest<C>(candidates: seq<Candidate>, ghost texts: seq<string>, context: C,
                       nouns: string -> seq<string>, score: (C, seq<string>) -> real)
    returns (best: Candidate)
    requires |candidates| > 0 && |texts| == |candidates|
    requires forall k :: 0 <= k < |candidates| ==>
      candidates[k].kbAbstract.Some? && texts[k] == Join(candidates[k].kbAbstract.value, " ")
    modifies candidates
    ensures forall k :: 0 <= k < |candidates| ==> KeepsIdentity(candidates[k])
    ensures forall k :: 0 <= k < |candidates| ==>
      && candidates[k].kbNouns == Some(nouns(texts[k]))
      && candidates[k].similarityScore == Some(score(context, candidates[k].kbNouns.value))
    ensures best == candidates[ArgMaxFirst(Scores(texts, context, nouns, score), |candidates|)]
  {
    ghost var scores := Scores(texts, context, nouns, score);
    best := candidates[0];
    ghost var bestIndex := 0;
    for i := 0 to |candidates|
      invariant bestIndex < |candidates| && best == candidates[bestIndex]
      invariant i == 0 ==> bestIndex == 0
      invariant i > 0 ==> bestIndex < i
      invariant forall j :: 0 <= j < i ==> scores[j] <= scores[bestIndex]
      invariant forall j :: 0 <= j < bestIndex ==> scores[j] < scores[bestIndex]
      invariant forall k :: 0 <= k < |candidates| ==> KeepsIdentity(candidates[k])
      invariant forall k :: 0 <= k < i ==>
        && candidates[k].kbNouns == Some(nouns(texts[k]))
        && candidates[k].similarityScore == Some(scores[k])
    {
      var candidate := candidates[i];
      ScoreCandidate(candidate, context, nouns, score);
      assert candidate.kbNouns == Some(nouns(texts[i]));
      assert candidate.similarityScore == Some(scores[i]);
      assert best.similarityScore == Some(scores[bestIndex]);
      RunningBestStep(scores, i, bestIndex);
      if candidate.similarityScore.value > best.similarityScore.value {
        best := candidate;
        bestIndex := i;
      }
    }
    ArgMaxFirstUnique(scores, |candidates|, bestIndex);
  }

  /** The line printed for a mention: record id, mention text and the
      Freebase id of the chosen candidate, separated by tabs. Python 2's
      `print` statement writes it followed by a newline, which is not part
      of the value. */
  function OutputLine(warcId: string, mention: string, freebaseId: Option<string>): (line: string)
    ensures '\n' in line <==> '\n' in warcId || '\n' in mention || '\n' in Show(freebaseId)
  {
    warcId + "\t" + mention + "\t" + Show(freebaseId)
  }

  /** A tab-free text is one field. */
  lemma OneField(s: string)
    requires '\t' !in s
    ensures Split(s, "\t") == [s]
  {
    ContainsChar(s, '\t');
    SplitFirst(s, "\t");
  }

  /** Splitting the line at tabs gives back its three fields when none of
      them holds a tab. */
  lemma OutputLineFields(warcId: string, mention: string, freebaseId: Option<string>)
    requires '\t' !in warcId && '\t' !in mention && '\t' !in Show(freebaseId)
    ensures Split(OutputLine(warcId, mention, freebaseId), "\t") == [warcId, mention, Show(freebaseId)]
  {
    var id := Show(freebaseId);
    var rest := mention + "\t" + id;
    calc {
      Split(OutputLine(warcId, mention, freebaseId), "\t");
      { assert OutputLine(warcId, mention, freebaseId) == warcId + "\t" + rest;
        SplitAfter(warcId, "\t", rest, 0); }
      [warcId] + Split(rest, "\t");
      { SplitAfter(mention, "\t", id, 0); }
      [warcId] + ([mention] + Split(id, "\t"));
      { OneField(id); }
      [warcId, mention, id];
    }
  }

  predicate IsEmptyList(abstracts: seq<string>)
  {
    abstracts == []
  }

  /** The first loop over the candidates: each one gets the English
      abstracts of its reply, and the first reply with a missing key stops
      the program with `KeyError`, after the candidates before it got
      theirs and before any later one is touched. No other field changes. */
  method AttachAbstracts(candidates: seq<Candidate>, responses: seq<TridentResponse>)
    returns (r: Result<(), PyError>)
    requires |responses| == |candidates|
    requires forall a, b :: 0 <= a < b < |candidates| ==> candidates[a] != candidates[b]
    modifies candidates
    ensures r.Failure? <==> exists k :: 0 <= k < |responses| && EnglishAbstractsOf(responses[k]).Failure?
    ensures r.Failure? ==> r.error == KeyError
    ensures r.Success? ==> forall k :: 0 <= k < |candidates| ==>
      candidates[k].kbAbstract == Some(EnglishAbstractsOf(responses[k]).value)
    ensures r.Failure? ==>
      exists i :: 0 <= i < |candidates|
        && EnglishAbstractsOf(responses[i]).Failure?
        && (forall k :: 0 <= k < i ==>
              && EnglishAbstractsOf(responses[k]).Success?
              && candidates[k].kbAbstract == Some(EnglishAbstractsOf(responses[k]).value))
        && (forall k :: i <= k < |candidates| ==> candidates[k].kbAbstract == old(candidates[k].kbAbstract))
    ensures forall k :: 0 <= k < |candidates| ==> SameRecord(candidates[k]) && Unscored(candidates[k])
  {
    for i := 0 to |candidates|
      invariant forall k :: 0 <= k < i ==>
        && EnglishAbstractsOf(responses[k]).Success?
        && candidates[k].kbAbstract == Some(EnglishAbstractsOf(responses[k]).value)
      invariant forall k :: 0 <= k < |candidates| ==>
        && SameRecord(candidates[k]) && Unscored(candidates[k])
        && (i <= k ==> candidates[k].kbAbstract == old(candidates[k].kbAbstract))
    {
      var english := EnglishAbstracts(responses[i]);
      if english.Failure? {
        assert EnglishAbstractsOf(responses[i]).Failure?;
        return Failure(english.error);
      }
      candidates[i].kbAbstract := Some(english.value);
    }
    return Success(());
  }

  /** Once every candidate holds its list, the filter keeps nothing exactly
      when no list is empty ... */
  lemma KeptCandidates(candidates: seq<Candidate>, lists: seq<seq<string>>)
    requires |lists| == |candidates|
    requires forall k :: 0 <= k < |candidates| ==> candidates[k].kbAbstract == Some(lists[k])
    ensures WithoutAbstracts(candidates) == [] <==> forall k :: 0 <= k < |lists| ==> lists[k] != []
  {
    WithoutAbstractsProperties(candidates);
    assert (forall c :: c in candidates ==> !Falsy(c.kbAbstract)) <==> forall k :: 0 <= k < |lists| ==> lists[k] != [];
  }

  lemma KeptIsFalsy(candidates: seq<Candidate>, c: Candidate)
    requires c in WithoutAbstracts(candidates)
    ensures c in candidates && Falsy(c.kbAbstract)
  {
    WithoutAbstractsProperties(candidates);
  }

  /** ... and every candidate it keeps holds an empty list. */
  lemma KeptListsEmpty(candidates: seq<Candidate>, lists: seq<seq<string>>)
    requires |lists| == |candidates|
    requires forall k :: 0 <= k < |candidates| ==> candidates[k].kbAbstract == Some(lists[k])
    ensures forall c :: c in WithoutAbstracts(candidates) ==> c in candidates && c.kbAbstract == Some([])
  {
    forall c | c in WithoutAbstracts(candidates) ensures c in candidates && c.kbAbstract == Some([]) {
      KeptIsFalsy(candidates, c);
      var k :| 0 <= k < |candidates| && candidates[k] == c;
    }
  }

  /** And the first candidate kept is the first one with an empty list. */
  lemma FirstKeptCandidate(candidates: seq<Candidate>, lists: seq<seq<string>>)
    requires |lists| == |candidates|
    requires forall k :: 0 <= k < |candidates| ==> candidates[k].kbAbstract == Some(lists[k])
    requires WithoutAbstracts(candidates) != []
    ensures FirstIndex(IsEmptyList, lists).Some?
    ensures WithoutAbstracts(candidates)[0] == candidates[FirstIndex(IsEmptyList, lists).value]
  {
    assert exists k :: 0 <= k < |lists| && IsEmptyList(lists[k]) by {
      KeptCandidates(candidates, lists);
    }
    var first := FirstIndex(IsEmptyList, lists).value;
    assert forall j :: 0 <= j < first ==> !Falsy(candidates[j].kbAbstract) by {
      assert forall j :: 0 <= j < first ==> !IsEmptyList(lists[j]);
    }
    WithoutAbstractsFirst(candidates, first);
  }

  /** A candidate is kept exactly when its list is empty. */
  lemma KeptExactlyEmpty(candidates: seq<Candidate>, lists: seq<seq<string>>)
    requires |lists| == |candidates|
    requires forall k :: 0 <= k < |candidates| ==> candidates[k].kbAbstract == Some(lists[k])
    ensures forall j :: 0 <= j < |candidates| ==> (candidates[j] in WithoutAbstracts(candidates) <==> lists[j] == [])
    ensures forall c :: c in WithoutAbstracts(candidates) ==> c in candidates && c.kbAbstract == Some([])
  {
    WithoutAbstractsProperties(candidates);
    KeptListsEmpty(candidates, lists);
  }

  /** Texts that are all empty score alike, so the first candidate wins. */
  lemma EmptyAbstractsTie<C>(texts: seq<string>, context: C, nouns: string -> seq<string>,
                             score: (C, seq<string>) -> real)
    requires |texts| > 0 && forall k :: 0 <= k < |texts| ==> texts[k] == ""
    ensures ArgMaxFirst(Scores(texts, context, nouns, score), |texts|) == 0
  {
    ArgMaxFirstTies(Scores(texts, context, nouns, score), score(context, nouns("")));
  }

  /** The rest of the loop body of `main` for a mention, once every
      candidate holds its list of English abstracts: nothing is printed
      (`None`) exactly when no list is empty, because the filter keeps only
      the candidates whose list is empty. Those all score the text `""`, so
      the line names the first candidate with an empty list, whatever the
      scorer. The lists themselves stay as they are; the candidates with an
      empty list get the nouns of `""` and their score, the others keep
      their nouns and score, and no other field changes. */
  method LinkAttached<C>(warcId: string, mention: string, candidates: seq<Candidate>,
                         ghost lists: seq<seq<string>>, context: C,
                         nouns: string -> seq<string>, score: (C, seq<string>) -> real)
    returns (line: Option<string>)
    requires |lists| == |candidates|
    requires forall k :: 0 <= k < |candidates| ==> candidates[k].kbAbstract == Some(lists[k])
    modifies candidates
    ensures forall k :: 0 <= k < |candidates| ==> Linked(candidates[k], lists[k], context, nouns, score)
    ensures line.None? <==> forall k :: 0 <= k < |lists| ==> lists[k] != []
    ensures line.Some? ==>
      exists k :: 0 <= k < |candidates|
        && lists[k] == []
        && (forall j :: 0 <= j < k ==> lists[j] != [])
        && line.value == OutputLine(warcId, mention, candidates[k].freebaseId)
  {
    var kept := RemoveCandidatesWithoutAbstracts(candidates);
    assert kept == [] <==> forall k :: 0 <= k < |lists| ==> lists[k] != [] by {
      KeptCandidates(candidates, lists);
    }
    if kept == [] {
      forall k | 0 <= k < |candidates| ensures Linked(candidates[k], lists[k], context, nouns, score) {
      }
      return None;
    }
    KeptExactlyEmpty(candidates, lists);
    ghost var k := FirstIndex(IsEmptyList, lists).value;
    assert kept[0] == candidates[k] by {
      FirstKeptCandidate(candidates, lists);
    }
    ghost var texts := seq(|kept|, i => "");
    assert forall i :: 0 <= i < |kept| ==> kept[i].kbAbstract == Some([]) by {
      forall i | 0 <= i < |kept| ensures kept[i].kbAbstract == Some([]) {
        assert kept[i] in kept;
      }
    }
    EmptyAbstractsTie(texts, context, nouns, score);
    var best := SelectBest(kept, texts, context, nouns, score);
    forall j | 0 <= j < |candidates| && lists[j] != []
      ensures Linked(candidates[j], lists[j], context, nouns, score)
    {
      assert candidates[j] !in kept;
    }
    forall j | 0 <= j < |candidates| && lists[j] == []
      ensures Linked(candidates[j], lists[j], context, nouns, score)
    {
      assert candidates[j] in kept;
      var i :| 0 <= i < |kept| && kept[i] == candidates[j];
      assert lists[j] == [] && texts[i] == "";
      assert KeepsIdentity(kept[i]);
    }
    assert best == candidates[k];
    line := Some(OutputLine(warcId, mention, best.freebaseId));
    assert lists[k] == [] && forall j :: 0 <= j < k ==> lists[j] != [];
    assert line.value == OutputLine(warcId, mention, candidates[k].freebaseId);
  }

  /** One pass of the loop body of `main` for a mention, given the decoded
      knowledge-base reply for each candidate. A missing key in a reply
      raises `KeyError`, and then no candidate has been scored; otherwise
      the result is that of `LinkAttached` with the English abstracts of
      each reply. */
  method LinkMention<C>(warcId: string, mention: string, candidates: seq<Candidate>,
                        responses: seq<TridentResponse>, context: C,
                        nouns: string -> seq<string>, score: (C, seq<string>) -> real)
    returns (r: Result<Option<string>, PyError>)
    requires |responses| == |candidates|
    requires forall a, b :: 0 <= a < b < |candidates| ==> candidates[a] != candidates[b]
    modifies candidates
    ensures r.Failure? <==> exists k :: 0 <= k < |responses| && EnglishAbstractsOf(responses[k]).Failure?
    ensures r.Failure? ==> r.error == KeyError
    ensures r.Success? ==> forall k :: 0 <= k < |candidates| ==>
      Linked(candidates[k], EnglishAbstractsOf(responses[k]).value, context, nouns, score)
    ensures r.Failure? ==>
      exists i :: 0 <= i < |candidates|
        && EnglishAbstractsOf(responses[i]).Failure?
        && (forall k :: 0 <= k < i ==>
              && EnglishAbstractsOf(responses[k]).Success?
              && candidates[k].kbAbstract == Some(EnglishAbstractsOf(responses[k]).value))
        && (forall k :: i <= k < |candidates| ==> candidates[k].kbAbstract == old(candidates[k].kbAbstract))
    ensures r.Failure? ==> forall k :: 0 <= k < |candidates| ==> SameRecord(candidates[k]) && Unscored(candidates[k])
    ensures r.Success? ==>
      (r.value.None? <==> forall k :: 0 <= k < |responses| ==> EnglishAbstractsOf(responses[k]) != Success([]))
    ensures r.Success? && r.value.Some? ==>
      exists k :: 0 <= k < |candidates|
        && EnglishAbstractsOf(responses[k]) == Success([])
        && (forall j :: 0 <= j < k ==> EnglishAbstractsOf(responses[j]) != Success([]))
        && r.value.value == OutputLine(warcId, mention, candidates[k].freebaseId)
  {
    var attached := AttachAbstracts(candidates, responses);
    if attached.Failure? {
      return Failure(attached.error);
    }
    ghost var lists := seq(|responses|, k requires 0 <= k < |responses| => EnglishAbstractsOf(responses[k]).value);
    assert forall k :: 0 <= k < |responses| ==> EnglishAbstractsOf(responses[k]) == Success(lists[k]);
    var line := LinkAttached(warcId, mention, candidates, lists, context, nouns, score);
    r := Success(line);
  }
}
