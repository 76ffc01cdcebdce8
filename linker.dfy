/** `scripts/linker.py`: candidate entities from a search, the knowledge-base
    queries about them, the English abstracts in the replies, and the
    candidate filter. Requests to the search engine and to the knowledge base
    are not modelled: their decoded replies are parameters. */
module Linker {
  import opened Wrappers
  import opened Strings
  import opened Seqs
  import E = Entity
  import opened ScapyEntity

  // ---------------------------------------------------------------------
  // find_candidates
  // ---------------------------------------------------------------------

  /** `find_candidates` over the dictionary `search` returned: one new
      entity per Freebase id, named after the query, carrying the id and
      its label set. Python leaves the order of a dictionary's keys open, so
      any order may come out. */
  method FindCandidates(query: string, found: map<Option<string>, set<Option<string>>>)
    returns (entities: seq<E.Entity>)
    ensures |entities| == |found.Keys|
    ensures forall k :: 0 <= k < |entities| ==> fresh(entities[k])
    ensures forall k :: 0 <= k < |entities| ==>
      && entities[k].name == query
      && entities[k].freebaseId in found
      && entities[k].freebaseLabel == Some(found[entities[k].freebaseId])
    ensures forall id :: id in found ==> exists k :: 0 <= k < |entities| && entities[k].freebaseId == id
    ensures forall a, b :: 0 <= a < b < |entities| ==> entities[a].freebaseId != entities[b].freebaseId
  {
    entities := [];
    var todo := found.Keys;
    ghost var ids: seq<Option<string>> := [];
    while todo != {}
      invariant todo <= found.Keys
      invariant |entities| + |todo| == |found.Keys|
      invariant |ids| == |entities|
      invariant forall k :: 0 <= k < |entities| ==> fresh(entities[k])
      invariant forall k :: 0 <= k < |entities| ==>
        && entities[k].name == query
        && entities[k].freebaseId == ids[k]
        && ids[k] in found && ids[k] !in todo
        && entities[k].freebaseLabel == Some(found[ids[k]])
      invariant forall id :: id in found && id !in todo ==> id in ids
      invariant forall a, b :: 0 <= a < b < |ids| ==> ids[a] != ids[b]
      decreases |todo|
    {
      var id :| id in todo;
      var entity := new E.Entity(query);
      entity.freebaseId := id;
      entity.freebaseLabel := Some(found[id]);
      entities := entities + [entity];
      ids := ids + [id];
      todo := todo - {id};
    }
  }

  // ---------------------------------------------------------------------
  // Knowledge-base queries
  // ---------------------------------------------------------------------

  const FREEBASE_NS := "http://rdf.freebase.com/ns/"

  /** `"m.{}".format(candidate_id[3:])`: the id with its first three
      characters replaced by `m.`. */
  function NormaliseId(id: string): (r: string)
    ensures StartsWith(r, "m.")
    ensures |r| == 2 + if |id| >= 3 then |id| - 3 else 0
  {
    "m." + DropPrefix(id, 3)
  }

  /** An id of the shape `/m/0abc` becomes `m.0abc`. */
  lemma NormaliseIdOfPath(prefix: string, tail: string)
    requires |prefix| == 3
    ensures NormaliseId(prefix + tail) == "m." + tail
  {
    assert (prefix + tail)[3..] == tail;
  }

  lemma NormaliseIdExample()
    ensures NormaliseId("/m/0abc") == "m.0abc"
  {
    NormaliseIdOfPath("/m/", "0abc");
  }

  /** The rewrite is not idempotent: an id already of the form `m.0abc`
      loses a character. */
  lemma NormaliseIdTwice()
    ensures NormaliseId(NormaliseId("/m/0abc")) == "m.abc"
  {
    NormaliseIdExample();
    NormaliseIdOfPath("m.0", "abc");
  }

  /** The IRI `<http://rdf.freebase.com/ns/m....>` of a normalised id. */
  function Resource(id: string): string
  {
    "<" + FREEBASE_NS + NormaliseId(id) + ">"
  }

  const KB_QUERY_PREFIX := "select * where {"
  const KB_QUERY_SUFFIX := " ?p ?o} limit 10"

  /** `build_kb_query`: every triple about the resource, at most ten. The
      `limit` argument is not used. */
  function BuildKbQuery(candidateId: string, limit: int): (query: string)
    ensures StartsWith(query, KB_QUERY_PREFIX)
    ensures EndsWith(query, KB_QUERY_SUFFIX)
    ensures |query| == |KB_QUERY_PREFIX| + |Resource(candidateId)| + |KB_QUERY_SUFFIX|
    ensures query[|KB_QUERY_PREFIX|..|query| - |KB_QUERY_SUFFIX|] == Resource(candidateId)
  {
    var query := KB_QUERY_PREFIX + Resource(candidateId) + KB_QUERY_SUFFIX;
    assert query[..|KB_QUERY_PREFIX|] == KB_QUERY_PREFIX;
    assert query[|query| - |KB_QUERY_SUFFIX|..] == KB_QUERY_SUFFIX;
    query
  }

  const ABSTRACT_QUERY_PREFIX := "select distinct ?abstract where { ?s <http://www.w3.org/2002/07/owl#sameAs> "
  const ABSTRACT_QUERY_SUFFIX :=
    " . ?s <http://www.w3.org/2002/07/owl#sameAs> ?o .?o <http://dbpedia.org/ontology/abstract> ?abstract.}"

  /** `build_kb_query_for_abstracts`: the DBpedia abstracts of the entities
      declared the same as the resource. The query closes with its group,
      with no `limit` clause after it; the `limit` argument is not used. */
  function BuildKbQueryForAbstracts(candidateId: string, limit: int): (query: string)
    ensures StartsWith(query, ABSTRACT_QUERY_PREFIX)
    ensures EndsWith(query, ABSTRACT_QUERY_SUFFIX)
    ensures |query| == |ABSTRACT_QUERY_PREFIX| + |Resource(candidateId)| + |ABSTRACT_QUERY_SUFFIX|
    ensures query[|ABSTRACT_QUERY_PREFIX|..|query| - |ABSTRACT_QUERY_SUFFIX|] == Resource(candidateId)
  {
    var query := ABSTRACT_QUERY_PREFIX + Resource(candidateId) + ABSTRACT_QUERY_SUFFIX;
    assert query[..|ABSTRACT_QUERY_PREFIX|] == ABSTRACT_QUERY_PREFIX;
    assert query[|query| - |ABSTRACT_QUERY_SUFFIX|..] == ABSTRACT_QUERY_SUFFIX;
    query
  }

  /** Both queries name the candidate through the same resource, whatever
      the limit. */
  lemma QueriesShareResource(candidateId: string, limit1: int, limit2: int)
    ensures BuildKbQuery(candidateId, limit1) == BuildKbQuery(candidateId, limit2)
    ensures BuildKbQueryForAbstracts(candidateId, limit1) == BuildKbQueryForAbstracts(candidateId, limit2)
    ensures Contains(BuildKbQuery(candidateId, limit1), Resource(candidateId))
    ensures Contains(BuildKbQueryForAbstracts(candidateId, limit1), Resource(candidateId))
  {
    var q1 := BuildKbQuery(candidateId, limit1);
    var q2 := BuildKbQueryForAbstracts(candidateId, limit1);
    var r := Resource(candidateId);
    assert OccursAt(q1, r, |KB_QUERY_PREFIX|);
    assert OccursAt(q2, r, |ABSTRACT_QUERY_PREFIX|);
  }

  // ---------------------------------------------------------------------
  // get_only_english_abstract_from_json
  // ---------------------------------------------------------------------

  /** The `abstract` object of a binding, with its `value` if present. */
  datatype Literal = Literal(value: Option<string>)

  /** One binding of the reply, with its `abstract` object if present. */
  datatype Binding = Binding(abstractLiteral: Option<Literal>)

  /** The `results` object of the reply, with its `bindings` if present. */
  datatype Results = Results(bindings: Option<seq<Binding>>)

  /** The decoded reply of the knowledge base, with `results` if present. */
  datatype TridentResponse = TridentResponse(results: Option<Results>)

  /** `trident_response["results"]["bindings"]`. */
  function Bindings(response: TridentResponse): (r: Result<seq<Binding>, PyError>)
    ensures r.Failure? <==> response.results.None? || response.results.value.bindings.None?
    ensures r.Failure? ==> r.error == KeyError
  {
    match response.results
    case None => Failure(KeyError)
    case Some(results) =>
      match results.bindings
      case None => Failure(KeyError)
      case Some(bindings) => Success(bindings)
  }

  /** `abstract["abstract"]["value"]`. */
  function BindingValue(binding: Binding): (r: Result<string, PyError>)
    ensures r.Failure? <==> binding.abstractLiteral.None? || binding.abstractLiteral.value.value.None?
    ensures r.Failure? ==> r.error == KeyError
  {
    match binding.abstractLiteral
    case None => Failure(KeyError)
    case Some(literal) =>
      match literal.value
      case None => Failure(KeyError)
      case Some(v) => Success(v)
  }

  /** The values of all bindings, or `KeyError` if any binding lacks one. */
  function BindingValues(bindings: seq<Binding>): (r: Result<seq<string>, PyError>)
    ensures r.Failure? <==> exists k :: 0 <= k < |bindings| && BindingValue(bindings[k]).Failure?
    ensures r.Failure? ==> r.error == KeyError
    ensures r.Success? ==>
      && |r.value| == |bindings|
      && forall k :: 0 <= k < |bindings| ==> BindingValue(bindings[k]) == Success(r.value[k])
  {
    if bindings == [] then Success([])
    else
      var first :- BindingValue(bindings[0]);
      var rest :- BindingValues(bindings[1..]);
      assert forall k :: 1 <= k < |bindings| ==> bindings[k] == bindings[1..][k - 1];
      Success([first] + rest)
  }

  predicate IsEnglish(v: string)
  {
    EndsWith(v, "\"@en\"")
  }

  /** What `get_only_english_abstract_from_json` returns or raises. */
  function EnglishAbstractsOf(response: TridentResponse): (r: Result<seq<string>, PyError>)
    ensures r.Failure? ==> r.error == KeyError
    ensures r.Success? ==> forall v :: v in r.value ==> IsEnglish(v)
  {
    var bindings :- Bindings(response);
    var values :- BindingValues(bindings);
    Success(Filter(IsEnglish, values))
  }

  /** It raises `KeyError` exactly when a key is missing on the way to some
      binding's value; otherwise it returns, in their order, exactly the
      values that end with `"@en"`, each as many times as the values hold it. */
  lemma EnglishAbstractsMeaning(response: TridentResponse)
    ensures var r := EnglishAbstractsOf(response);
      && (r.Failure? <==>
            || Bindings(response).Failure?
            || exists k :: 0 <= k < |Bindings(response).value| && BindingValue(Bindings(response).value[k]).Failure?)
      && (r.Failure? ==> r.error == KeyError)
      && (r.Success? ==>
            var values := BindingValues(Bindings(response).value).value;
            && IsSubsequence(r.value, values)
            && (forall v :: v in r.value <==> v in values && IsEnglish(v))
            && forall v :: multiset(r.value)[v] == if IsEnglish(v) then multiset(values)[v] else 0)
  {
    if Bindings(response).Success? && BindingValues(Bindings(response).value).Success? {
      FilterIsSubsequence(IsEnglish, BindingValues(Bindings(response).value).value);
      FilterMultiset(IsEnglish, BindingValues(Bindings(response).value).value);
    }
  }

  /** `get_only_english_abstract_from_json`. */
  method EnglishAbstracts(response: TridentResponse) returns (r: Result<seq<string>, PyError>)
    ensures r == EnglishAbstractsOf(response)
  {
    var candidateAbstracts :- Bindings(response);
    var englishAbstracts: seq<string> := [];
    ghost var values: seq<string> := [];
    for i := 0 to |candidateAbstracts|
      invariant |values| == i
      invariant forall k :: 0 <= k < i ==> BindingValue(candidateAbstracts[k]) == Success(values[k])
      invariant englishAbstracts == Filter(IsEnglish, values)
    {
      var v :- BindingValue(candidateAbstracts[i]);
      FilterAppend(IsEnglish, values, [v]);
      if IsEnglish(v) {
        englishAbstracts := englishAbstracts + [v];
      }
      values := values + [v];
    }
    var all := BindingValues(candidateAbstracts);
    assert all.Success?;
    assert forall k :: 0 <= k < |values| ==> all.value[k] == values[k];
    assert all.value == values;
    return Success(englishAbstracts);
  }

  // ---------------------------------------------------------------------
  // remove_candidates_without_abstracts
  // ---------------------------------------------------------------------

  /** Python's `not candidate.kb_abstract`: no list, or an empty one. */
  predicate Falsy(abstracts: Option<seq<string>>)
  {
    abstracts.None? || abstracts.value == []
  }

  /** The candidates the filter keeps, in their order. */
  function WithoutAbstracts(candidates: seq<Candidate>): (kept: seq<Candidate>)
    reads set c | c in candidates
    ensures |kept| <= |candidates|
  {
    if candidates == [] then []
    else
      var last := candidates[|candidates| - 1];
      WithoutAbstracts(candidates[..|candidates| - 1]) + (if Falsy(last.kbAbstract) then [last] else [])
  }

  /** `remove_candidates_without_abstracts`, as written. */
  method RemoveCandidatesWithoutAbstracts(candidates: seq<Candidate>) returns (newCandidates: seq<Candidate>)
    ensures newCandidates == WithoutAbstracts(candidates)
  {
    newCandidates := [];
    for i := 0 to |candidates|
      invariant newCandidates == WithoutAbstracts(candidates[..i])
    {
      assert candidates[..i + 1][..i] == candidates[..i];
      if Falsy(candidates[i].kbAbstract) {
        newCandidates := newCandidates + [candidates[i]];
      }
    }
    assert candidates[..|candidates|] == candidates;
  }

  /** The result is an order-preserving subsequence holding exactly the
      candidates with no abstract or an empty list of them, each as many
      times as the input holds it. */
  lemma {:induction false} WithoutAbstractsProperties(candidates: seq<Candidate>)
    ensures IsSubsequence(WithoutAbstracts(candidates), candidates)
    ensures forall c :: c in WithoutAbstracts(candidates) <==> c in candidates && Falsy(c.kbAbstract)
    ensures WithoutAbstracts(candidates) == [] <==> forall c :: c in candidates ==> !Falsy(c.kbAbstract)
    ensures forall c: Candidate :: multiset(WithoutAbstracts(candidates))[c] ==
              (if Falsy(c.kbAbstract) then multiset(candidates)[c] else 0)
  {
    if candidates != [] {
      var init := candidates[..|candidates| - 1];
      var last := candidates[|candidates| - 1];
      WithoutAbstractsProperties(init);
      assert candidates == init + [last];
      SubsequenceExtend(WithoutAbstracts(init), init, last, Falsy(last.kbAbstract));
    }
    WithoutAbstractsMultiset(candidates);
  }

  /** Each candidate the filter keeps appears in the result as many times as
      in the input. */
  lemma {:induction false} WithoutAbstractsMultiset(candidates: seq<Candidate>)
    ensures forall c: Candidate :: multiset(WithoutAbstracts(candidates))[c] ==
              (if Falsy(c.kbAbstract) then multiset(candidates)[c] else 0)
  {
    if candidates != [] {
      var init := candidates[..|candidates| - 1];
      var last := candidates[|candidates| - 1];
      WithoutAbstractsMultiset(init);
      assert candidates == init + [last];
      assert multiset(candidates) == multiset(init) + multiset{last};
      assert multiset(WithoutAbstracts(candidates))
        == multiset(WithoutAbstracts(init)) + (if Falsy(last.kbAbstract) then multiset{last} else multiset{});
    }
  }

  /** Contrary to its name and to its documentation, the filter drops every
      candidate that has an abstract, and keeps the ones without. */
  lemma FilterDropsCandidatesWithAbstracts(candidates: seq<Candidate>)
    ensures forall c :: c in candidates && c.kbAbstract.Some? && c.kbAbstract.value != [] ==>
      c !in WithoutAbstracts(candidates)
    ensures forall c :: c in candidates && c.kbAbstract == Some([]) ==> c in WithoutAbstracts(candidates)
  {
    WithoutAbstractsProperties(candidates);
  }

  /** Filtering twice is filtering once. */
  lemma {:induction false} WithoutAbstractsIdempotent(candidates: seq<Candidate>)
    ensures WithoutAbstracts(WithoutAbstracts(candidates)) == WithoutAbstracts(candidates)
  {
    if candidates != [] {
      var init := candidates[..|candidates| - 1];
      var last := candidates[|candidates| - 1];
      WithoutAbstractsIdempotent(init);
      var kept := WithoutAbstracts(init);
      assert WithoutAbstracts(candidates) == kept + (if Falsy(last.kbAbstract) then [last] else []);
      if Falsy(last.kbAbstract) {
        var twice := kept + [last];
        assert twice[|twice| - 1] == last && twice[..|twice| - 1] == kept;
        assert WithoutAbstracts(twice) == WithoutAbstracts(kept) + [last];
        assert WithoutAbstracts(candidates) == twice;
      } else {
        assert WithoutAbstracts(candidates) == kept;
      }
    }
  }

  /** The first candidate kept is the first one without abstracts. */
  lemma {:induction false} WithoutAbstractsFirst(candidates: seq<Candidate>, k: nat)
    requires k < |candidates| && Falsy(candidates[k].kbAbstract)
    requires forall j :: 0 <= j < k ==> !Falsy(candidates[j].kbAbstract)
    ensures WithoutAbstracts(candidates) != [] && WithoutAbstracts(candidates)[0] == candidates[k]
  {
    var init := candidates[..|candidates| - 1];
    assert forall j :: 0 <= j < |init| ==> init[j] == candidates[j];
    if k == |candidates| - 1 {
      WithoutAbstractsProperties(init);
      assert forall c :: c in init ==> !Falsy(c.kbAbstract);
      assert WithoutAbstracts(candidates) == WithoutAbstracts(init) + [candidates[k]];
    } else {
      WithoutAbstractsFirst(init, k);
    }
  }
}
