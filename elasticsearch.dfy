/** `scripts/elasticsearch.py`: turning the hits of a label search into a
    dictionary from Freebase id to the set of labels found for it. The HTTP
    request is not modelled; the decoded reply is a parameter. */
module ElasticSearch {
  import opened Wrappers
  import opened Seqs

  /** The `_source` object of a hit; a missing key reads as `None`. */
  datatype Source = Source(freebaseLabel: Option<string>, resource: Option<string>)

  /** One search hit: its `_source` (if any) and its `_score`. */
  datatype Hit = Hit(source: Option<Source>, score: real)

  /** The outer `hits` object of the reply, with its inner `hits` list. */
  datatype HitsObject = HitsObject(hits: Option<seq<Hit>>)

  /** A reply: whether it is truthy (a status below 400) and its JSON body. */
  datatype Response = Response(ok: bool, body: Option<HitsObject>)

  /** `response.get('hits', {}).get('hits', [])`. */
  function HitList(response: Response): (hits: seq<Hit>)
    ensures response.body.None? ==> hits == []
  {
    match response.body
    case None => []
    case Some(outer) => if outer.hits.Some? then outer.hits.value else []
  }

  /** `hit.get('_source', {}).get('resource')`. */
  function HitId(hit: Hit): Option<string>
  {
    if hit.source.Some? then hit.source.value.resource else None
  }

  /** `hit.get('_source', {}).get('label')`. */
  function HitLabel(hit: Hit): Option<string>
  {
    if hit.source.Some? then hit.source.value.freebaseLabel else None
  }

  type IdLabels = map<Option<string>, set<Option<string>>>

  /** `id_labels.setdefault(id, set()).add(label)`. */
  function AddLabel(m: IdLabels, id: Option<string>, lbl: Option<string>): (r: IdLabels)
    ensures r.Keys == m.Keys + {id}
    ensures r[id] == (if id in m then m[id] else {}) + {lbl}
    ensures forall k :: k in m && k != id ==> r[k] == m[k]
  {
    m[id := (if id in m then m[id] else {}) + {lbl}]
  }

  /** The dictionary the `setdefault(...).add(...)` loop builds from a list
      of `(id, label)` pairs, taken in order. */
  function GroupLabels(pairs: seq<(Option<string>, Option<string>)>): (m: IdLabels)
    ensures forall p :: p in pairs ==> p.0 in m && p.1 in m[p.0]
  {
    if pairs == [] then map[]
    else
      var init, last := pairs[..|pairs| - 1], pairs[|pairs| - 1];
      assert pairs == init + [last];
      AddLabel(GroupLabels(init), last.0, last.1)
  }

  /** The grouping has one key per distinct id, holding exactly the labels
      paired with that id. */
  lemma {:induction false} GroupLabelsMeaning(pairs: seq<(Option<string>, Option<string>)>)
    ensures forall id :: id in GroupLabels(pairs) <==> exists p :: p in pairs && p.0 == id
    ensures forall id, lbl :: id in GroupLabels(pairs) ==>
      (lbl in GroupLabels(pairs)[id] <==> (id, lbl) in pairs)
  {
    if pairs != [] {
      var init := pairs[..|pairs| - 1];
      var last := pairs[|pairs| - 1];
      GroupLabelsMeaning(init);
      assert pairs == init + [last];
      forall p ensures p in pairs <==> p in init || p == last {
      }
    }
  }

  /** There are never more keys than pairs. */
  lemma {:induction false} GroupLabelsSize(pairs: seq<(Option<string>, Option<string>)>)
    ensures |GroupLabels(pairs).Keys| <= |pairs|
  {
    if pairs != [] {
      var init := pairs[..|pairs| - 1];
      GroupLabelsSize(init);
      var last := pairs[|pairs| - 1];
      assert GroupLabels(pairs).Keys == GroupLabels(init).Keys + {last.0};
    }
  }

  /** The `(id, label)` pair of each hit, in order. */
  function HitPairs(hits: seq<Hit>): (pairs: seq<(Option<string>, Option<string>)>)
    ensures |pairs| == |hits|
    ensures forall k :: 0 <= k < |hits| ==> pairs[k] == (HitId(hits[k]), HitLabel(hits[k]))
  {
    seq(|hits|, k requires 0 <= k < |hits| => (HitId(hits[k]), HitLabel(hits[k])))
  }

  /** `search` after the request: a falsy reply gives an empty dictionary;
      otherwise every hit adds its label to the set of its id. */
  method Search(response: Response) returns (idLabels: IdLabels)
    ensures !response.ok ==> idLabels == map[]
    ensures response.ok ==> idLabels == GroupLabels(HitPairs(HitList(response)))
  {
    idLabels := map[];
    if response.ok {
      var hits := HitList(response);
      ghost var pairs := HitPairs(hits);
      for i := 0 to |hits|
        invariant idLabels == GroupLabels(pairs[..i])
      {
        assert pairs[..i + 1][..i] == pairs[..i];
        idLabels := AddLabel(idLabels, HitId(hits[i]), HitLabel(hits[i]));
      }
      assert pairs[..|hits|] == pairs;
    }
  }

  // ---------------------------------------------------------------------
  // get_best_candidates
  // ---------------------------------------------------------------------

  /** The list `[freebase_id, score, freebase_label]` built for each hit. */
  datatype Entry = Entry(id: Option<string>, score: real, freebaseLabel: Option<string>)

  /** Places `e` before the first entry of `t` whose score is not above
      that of `e`. */
  function Insert(e: Entry, t: seq<Entry>): seq<Entry>
  {
    if t == [] || e.score >= t[0].score then [e] + t
    else [t[0]] + Insert(e, t[1..])
  }

  /** `sorted(entries, key=score, reverse=True)`, Python's stable sort, as
      an insertion sort from the back. */
  function SortDesc(entries: seq<Entry>): (sorted: seq<Entry>)
    ensures multiset(sorted) == multiset(entries) && |sorted| == |entries|
  {
    if entries == [] then []
    else
      var rest := SortDesc(entries[1..]);
      InsertMultiset(entries[0], rest);
      assert entries == [entries[0]] + entries[1..];
      Insert(entries[0], rest)
  }

  predicate Descending(s: seq<Entry>)
  {
    forall i, j :: 0 <= i < j < |s| ==> s[i].score >= s[j].score
  }

  lemma {:induction false} InsertMultiset(e: Entry, t: seq<Entry>)
    ensures multiset(Insert(e, t)) == multiset([e] + t)
    ensures |Insert(e, t)| == |t| + 1
  {
    if t != [] && e.score < t[0].score {
      InsertMultiset(e, t[1..]);
      assert t == [t[0]] + t[1..];
    }
  }

  /** A descending list stays descending under a head that scores no lower
      than any of its entries. */
  lemma DescendingCons(h: Entry, r: seq<Entry>)
    requires Descending(r) && forall x :: x in r ==> x.score <= h.score
    ensures Descending([h] + r)
  {
    forall i, j | 0 <= i < j < |[h] + r| ensures ([h] + r)[i].score >= ([h] + r)[j].score {
      if i == 0 {
        assert ([h] + r)[j] == r[j - 1] && r[j - 1] in r;
      } else {
        assert ([h] + r)[i] == r[i - 1] && ([h] + r)[j] == r[j - 1];
      }
    }
  }

  lemma {:induction false} InsertDescending(e: Entry, t: seq<Entry>)
    requires Descending(t)
    ensures Descending(Insert(e, t))
  {
    if t != [] && e.score < t[0].score {
      var rest := t[1..];
      var r := Insert(e, rest);
      assert Descending(rest);
      InsertDescending(e, rest);
      assert forall x :: x in r ==> x.score <= t[0].score by {
        InsertMultiset(e, rest);
        forall x | x in r ensures x.score <= t[0].score {
          assert x in multiset(r);
          assert x == e || x in rest;
        }
      }
      assert Insert(e, t) == [t[0]] + r;
      DescendingCons(t[0], r);
    }
  }

  /** The sort orders by descending score and only rearranges. */
  lemma {:induction false} SortDescProperties(entries: seq<Entry>)
    ensures Descending(SortDesc(entries))
    ensures multiset(SortDesc(entries)) == multiset(entries)
    ensures |SortDesc(entries)| == |entries|
  {
    if entries != [] {
      SortDescProperties(entries[1..]);
      InsertDescending(entries[0], SortDesc(entries[1..]));
      InsertMultiset(entries[0], SortDesc(entries[1..]));
      assert entries == [entries[0]] + entries[1..];
    }
  }

  function HasScore(v: real): Entry -> bool
  {
    (x: Entry) => x.score == v
  }

  /** Inserting `e` into a descending list leaves the entries of any other
      score in order and puts `e` first among those of its own score. */
  lemma {:induction false} InsertStable(e: Entry, t: seq<Entry>, v: real)
    requires Descending(t)
    ensures Filter(HasScore(v), Insert(e, t)) == Filter(HasScore(v), [e]) + Filter(HasScore(v), t)
  {
    var keep := HasScore(v);
    if t == [] || e.score >= t[0].score {
      FilterAppend(keep, [e], t);
    } else {
      var rest := t[1..];
      assert Descending(rest);
      assert t == [t[0]] + rest;
      calc {
        Filter(keep, Insert(e, t));
        { FilterAppend(keep, [t[0]], Insert(e, rest)); }
        Filter(keep, [t[0]]) + Filter(keep, Insert(e, rest));
        { InsertStable(e, rest, v); }
        Filter(keep, [t[0]]) + (Filter(keep, [e]) + Filter(keep, rest));
        // t[0] scores above e, so at most one of the two is kept
        { assert Filter(keep, [t[0]]) == [] || Filter(keep, [e]) == []; }
        Filter(keep, [e]) + (Filter(keep, [t[0]]) + Filter(keep, rest));
        { FilterAppend(keep, [t[0]], rest); }
        Filter(keep, [e]) + Filter(keep, t);
      }
    }
  }

  /** The sort is stable: entries of equal score keep the order of the hits. */
  lemma {:induction false} SortDescStable(entries: seq<Entry>, v: real)
    ensures Filter(HasScore(v), SortDesc(entries)) == Filter(HasScore(v), entries)
  {
    if entries != [] {
      SortDescStable(entries[1..], v);
      SortDescProperties(entries[1..]);
      InsertStable(entries[0], SortDesc(entries[1..]), v);
      FilterAppend(HasScore(v), [entries[0]], entries[1..]);
      assert entries == [entries[0]] + entries[1..];
    }
  }

  /** The entry of each hit, in order. */
  function HitEntries(hits: seq<Hit>): (entries: seq<Entry>)
    ensures |entries| == |hits|
    ensures forall k :: 0 <= k < |hits| ==> entries[k] == Entry(HitId(hits[k]), hits[k].score, HitLabel(hits[k]))
  {
    seq(|hits|, k requires 0 <= k < |hits| => Entry(HitId(hits[k]), hits[k].score, HitLabel(hits[k])))
  }

  function EntryPairs(entries: seq<Entry>): (pairs: seq<(Option<string>, Option<string>)>)
    ensures |pairs| == |entries|
    ensures forall k :: 0 <= k < |entries| ==> pairs[k] == (entries[k].id, entries[k].freebaseLabel)
  {
    seq(|entries|, k requires 0 <= k < |entries| => (entries[k].id, entries[k].freebaseLabel))
  }

  /** The length of `range(results_No)`. */
  function Cap(resultsNo: int): nat
  {
    if resultsNo < 0 then 0 else resultsNo
  }

  /** How many sorted entries `for i in range(results_No)` reaches before an
      `IndexError` ends it: `range` of a negative number is empty. */
  function TakeCount(resultsNo: int, available: nat): (n: nat)
    ensures n <= available && n <= Cap(resultsNo)
    ensures n == available || n == Cap(resultsNo)
  {
    if resultsNo < 0 then 0 else if resultsNo < available then resultsNo else available
  }

  /** `get_best_candidates` after the request: the hits sorted by descending
      score, of which the first `results_No` (or all, when there are fewer)
      are grouped by id. */
  method GetBestCandidates(response: Response, resultsNo: int) returns (best: IdLabels)
    ensures !response.ok ==> best == map[]
    ensures response.ok ==>
      var sorted := SortDesc(HitEntries(HitList(response)));
      best == GroupLabels(EntryPairs(sorted[..TakeCount(resultsNo, |sorted|)]))
  {
    best := map[];
    if response.ok {
      var hits := HitList(response);
      var idLabels: seq<Entry> := [];
      for k := 0 to |hits|
        invariant idLabels == HitEntries(hits[..k])
      {
        idLabels := idLabels + [Entry(HitId(hits[k]), hits[k].score, HitLabel(hits[k]))];
      }
      assert hits[..|hits|] == hits;
      var sorted := SortDesc(idLabels);
      best := TakeBest(sorted, resultsNo);
    }
  }

  /** The `for i in range(results_No)` loop of `get_best_candidates`: the
      first `results_No` sorted entries grouped by id, where the `IndexError`
      of running out of entries ends the loop through the bare `except`. */
  method TakeBest(sorted: seq<Entry>, resultsNo: int) returns (best: IdLabels)
    ensures best == GroupLabels(EntryPairs(sorted[..TakeCount(resultsNo, |sorted|)]))
  {
    best := map[];
    var i := 0;
    while i < resultsNo
      invariant 0 <= i <= |sorted|
      invariant i <= resultsNo || i == 0
      invariant best == GroupLabels(EntryPairs(sorted[..i]))
      decreases resultsNo - i
    {
      if i >= |sorted| {
        break;
      }
      assert EntryPairs(sorted[..i + 1])[..i] == EntryPairs(sorted[..i]);
      best := AddLabel(best, sorted[i].id, sorted[i].freebaseLabel);
      i := i + 1;
    }
    assert i == TakeCount(resultsNo, |sorted|);
  }

  /** At most `results_No` ids, and no more than there are hits. */
  lemma BestCandidatesBound(response: Response, resultsNo: int)
    ensures var sorted := SortDesc(HitEntries(HitList(response)));
      var best := GroupLabels(EntryPairs(sorted[..TakeCount(resultsNo, |sorted|)]));
      && |best.Keys| <= Cap(resultsNo)
      && |best.Keys| <= |HitList(response)|
  {
    var sorted := SortDesc(HitEntries(HitList(response)));
    SortDescProperties(HitEntries(HitList(response)));
    GroupLabelsSize(EntryPairs(sorted[..TakeCount(resultsNo, |sorted|)]));
  }

  /** Entries drawn from `b` give pairs drawn from those of `b`. */
  lemma EntryPairsSubset(a: seq<Entry>, b: seq<Entry>)
    requires forall x :: x in a ==> x in b
    ensures forall p :: p in EntryPairs(a) ==> p in EntryPairs(b)
  {
    forall p | p in EntryPairs(a) ensures p in EntryPairs(b) {
      var k :| 0 <= k < |a| && EntryPairs(a)[k] == p;
      assert a[k] in b;
      var j :| 0 <= j < |b| && b[j] == a[k];
      assert EntryPairs(b)[j] == p;
    }
  }

  /** With no more hits than `results_No`, every hit's label is kept under
      its id, as in `search`. */
  lemma BestCandidatesAll(response: Response, resultsNo: int)
    requires resultsNo >= |HitList(response)|
    ensures var sorted := SortDesc(HitEntries(HitList(response)));
      var best := GroupLabels(EntryPairs(sorted[..TakeCount(resultsNo, |sorted|)]));
      forall id, lbl :: (id in best && lbl in best[id]) <==> (id, lbl) in HitPairs(HitList(response))
  {
    var hits := HitList(response);
    var entries := HitEntries(hits);
    var sorted := SortDesc(entries);
    assert multiset(sorted) == multiset(entries) && |sorted| == |entries| by {
      SortDescProperties(entries);
    }
    assert sorted[..TakeCount(resultsNo, |sorted|)] == sorted;
    assert forall x :: x in sorted <==> x in entries by {
      forall x ensures x in sorted <==> x in entries {
        assert x in sorted <==> x in multiset(sorted);
        assert x in entries <==> x in multiset(entries);
      }
    }
    EntryPairsSubset(sorted, entries);
    EntryPairsSubset(entries, sorted);
    assert EntryPairs(entries) == HitPairs(hits);
    GroupLabelsMeaning(EntryPairs(sorted));
  }
}
