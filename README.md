# Entity linking over WARC records — a Dafny model

This project models the core of an entity-linking pipeline for web-crawl
archives (WARC files). A label search returns Freebase ids with their labels.
Each id becomes a candidate entity. The knowledge base returns abstracts for
each candidate, and only the English ones are kept. The candidates are then
filtered and scored against the document, and the best one is printed as
`warc_id \t mention \t freebase_id`. The model also covers the text helpers
that prepare the documents: splitting a WARC stream into records, reading a
record's `WARC-TREC-ID`, splitting headers from the body, removing comment
blocks, cleaning tokens, grouping proper-noun runs and the entity-type filter.

Modules, one per source file (plus three helper modules):

- `Wrappers`: `Option` (Python's `None`), `Result` (a value or the exception raised) and `PyError`.
- `Strings`: the Python `str` operations used here: `startswith`, `endswith`, `in`, `find`, `split`, `join`, `splitlines`, `strip`, `replace` and `format` of `None`.
- `Seqs`: filtering comprehensions and the order-preserving subsequence relation.
- `Entity` — `scripts/entity.py`; `ScapyEntity` — `scripts/scapy_entity.py`.
- `ElasticSearch` — `scripts/elasticsearch.py`, after the HTTP request.
- `Linker` — `scripts/linker.py`.
- `ScapyLinker` — the per-mention part of `main` in `scripts/scapy_linker.py`.
- `Preprocessing` — `scripts/preprocessing.py`. Its `find_id`, `find_labels`, `split_records`, `remove_code_blocks` and `split_headers` are copied character for character into `scripts/main.py`. Its `find_id`, `find_labels` and `split_records` are also copied into `scripts/scapy_preprocessing.py`. Each is defined once here.
- `ScapyPreprocessing` — what differs in `scripts/scapy_preprocessing.py`: `clear_text`, its own `split_headers`, and the entity-type filter.

Conventions:

- Python objects whose fields are reassigned are Dafny classes: `Entity`, `Mention` and `Candidate`. Loops that build lists or dictionaries are methods with loop invariants, each proved equal to a specification function. The properties are stated about those functions.
- A missing dictionary key or list index is a `Failure(KeyError)` or `Failure(IndexError)` result, not a precondition.
- `scripts/preprocessing.py` and `scripts/main.py` are Python 3: they read the archive as text (`gzip.open(..., "rt")`), so their strings are `str`. `scripts/linker.py`, `scripts/scapy_linker.py` and `scripts/scapy_preprocessing.py` are Python 2 (`print` statements).
- `splitlines` and `strip` follow text strings, as in the Python 3 scripts. `splitlines` breaks at `\n`, `\r`, `\r\n`, `\v`, `\f`, `\x1c`-`\x1e`, `\x85`, `\u2028` and `\u2029`. `strip` removes every character for which `str.isspace` holds. Digits and word characters are ASCII classes (see "Left out").
- The noun extractor, the similarity measure and the document context are not defined in the repository. They are parameters `nouns`, `score` and `context` of the selection; no metric is assumed.

The docstring of the candidate filter (`scripts/linker.py:170-171`) says it removes a candidate for which no English abstract was found, and the comment at `scripts/linker.py:177` says a candidate that has an abstract is appended to the new list. The code (`scripts/linker.py:177-179`) keeps the candidates *without* one. The model follows the code. `FilterDropsCandidatesWithAbstracts` states the mismatch. `LinkAttached` states the consequence: every surviving candidate has an empty abstract list, so all of them score `score(context, nouns(""))`, and the printed line names the first candidate with no English abstract.

## Model

| member | source | states |
|---|---|---|
| `Entity.Entity.constructor` | scripts/entity.py:8-11 | stores the name unchanged; `freebase_id` and `freebase_label` start as `None` |
| `Entity.Entity.ToString` | scripts/entity.py:13-14 | `__str__` starts with `Entity____  NAME: `; when name and id hold no `:`, parsing the text at ` , ID: ` and ` , LABEL: ` gives back name, id and labels |
| `Entity.NewEntityString` | scripts/entity.py:8-14 | a new entity prints as `Entity____  NAME: {name} , ID: None , LABEL: None` |
| `ScapyEntity.Entity.constructor` | scripts/scapy_entity.py:8-10 | stores the name; `ner_label` starts as `None` |
| `ScapyEntity.Mention.constructor` | scripts/scapy_entity.py:15-19 | stores name and warc id; `ner_label`, `record_mentions` and `best_candidate` start as `None` |
| `ScapyEntity.Mention.ToString` | scripts/scapy_entity.py:21-22 | `__str__` starts with `Entity____  NAME: `; when name and warc id hold no `:`, parsing at `  WARC_ID: ` and `  LABEL: ` gives back name, warc id and label |
| `ScapyEntity.NewMentionString` | scripts/scapy_entity.py:15-22 | a new mention prints as `Entity____  NAME: {name}  WARC_ID: {warc_id}  LABEL: None` |
| `ScapyEntity.Candidate.constructor` | scripts/scapy_entity.py:27-33 | stores the name; id, labels, abstract, nouns and score all start as `None` |
| `ElasticSearch.HitList` | scripts/elasticsearch.py:10 | a reply with no `hits` object yields no hits |
| `ElasticSearch.AddLabel` | scripts/elasticsearch.py:13 | `setdefault(id, set()).add(label)` adds `id` as a key, adds `label` to its set, and leaves every other key's set unchanged |
| `ElasticSearch.GroupLabels` | scripts/elasticsearch.py:10-13 | every `(id, label)` pair is recorded: the id is a key and the label is in its set |
| `ElasticSearch.GroupLabelsMeaning` | scripts/elasticsearch.py:10-13 | the keys are exactly the ids of the pairs; an id's set holds exactly the labels paired with it |
| `ElasticSearch.GroupLabelsSize` | scripts/elasticsearch.py:10-13 | there are never more keys than hits |
| `ElasticSearch.Search` | scripts/elasticsearch.py:7-14 | a falsy reply gives `{}`; otherwise the labels of the hits grouped by id, a hit missing `_source`/`label`/`resource` contributing `None` |
| `ElasticSearch.SortDesc` | scripts/elasticsearch.py:39 | the sorted list is a permutation of the entries, of the same length |
| `ElasticSearch.SortDescProperties` | scripts/elasticsearch.py:39 | the sort orders entries by descending score and is a permutation of them |
| `ElasticSearch.SortDescStable` | scripts/elasticsearch.py:39 | the sort is stable: entries of equal score keep the order of the hits |
| `ElasticSearch.TakeCount` | scripts/elasticsearch.py:40-45 | the loop reaches `min(results_No, number of hits)` entries, and none for a negative `results_No` |
| `ElasticSearch.GetBestCandidates` | scripts/elasticsearch.py:28-47 | a falsy reply gives `{}`; otherwise the first `TakeCount` sorted entries grouped by id; fewer hits than `results_No` ends the loop without error |
| `ElasticSearch.TakeBest` | scripts/elasticsearch.py:40-45 | the `range(results_No)` loop groups by id exactly the first `TakeCount` sorted entries; the `IndexError` past the last entry ends the loop without error |
| `ElasticSearch.BestCandidatesBound` | scripts/elasticsearch.py:40-45 | at most `results_No` ids, and at most as many as there are hits |
| `ElasticSearch.BestCandidatesAll` | scripts/elasticsearch.py:36-45 | when `results_No` covers every hit, each hit's label is kept under its id, as in `search` |
| `Linker.FindCandidates` | scripts/linker.py:74-81 | one new entity per key of the search result, none twice; each named after the query, with that key as id and its label set as labels |
| `Linker.NormaliseId` | scripts/linker.py:125-126 | the id becomes `m.` followed by the id without its first three characters |
| `Linker.NormaliseIdOfPath` | scripts/linker.py:141-142 | for any three-character prefix, `prefix + tail` becomes `m.` + `tail` |
| `Linker.NormaliseIdExample` | scripts/linker.py:125-126 | `/m/0abc` becomes `m.0abc` |
| `Linker.NormaliseIdTwice` | scripts/linker.py:125-126 | the rewrite is not idempotent: `m.0abc` becomes `m.abc` |
| `Linker.BuildKbQuery` | scripts/linker.py:117-130 | `select * where {` + `<http://rdf.freebase.com/ns/m....>` + ` ?p ?o} limit 10`; the resource sits exactly between the two fixed parts |
| `Linker.BuildKbQueryForAbstracts` | scripts/linker.py:133-150 | the DBpedia-abstract query, with the resource `<http://rdf.freebase.com/ns/m....>` between its two fixed parts, ending in `?abstract.}` with no limit clause |
| `Linker.QueriesShareResource` | scripts/linker.py:117-148 | neither query depends on `limit`; both contain the candidate's resource IRI |
| `Linker.Bindings` | scripts/linker.py:160 | `KeyError` exactly when `results` or `bindings` is missing |
| `Linker.BindingValue` | scripts/linker.py:162 | `KeyError` exactly when `abstract` or `value` is missing |
| `Linker.BindingValues` | scripts/linker.py:161-163 | `KeyError` exactly when some binding lacks a value; otherwise every binding's value, in order |
| `Linker.EnglishAbstractsOf` | scripts/linker.py:159-165 | the only exception is `KeyError`; every value returned ends with `"@en"` |
| `Linker.EnglishAbstractsMeaning` | scripts/linker.py:159-165 | raises `KeyError` exactly when a key is missing; otherwise the result is an ordered subsequence of the values holding exactly those ending with `"@en"`, each as many times as the values hold it |
| `Linker.EnglishAbstracts` | scripts/linker.py:153-165 | the loop returns or raises what `EnglishAbstractsOf` specifies |
| `Linker.RemoveCandidatesWithoutAbstracts` | scripts/linker.py:168-181 | the loop returns exactly `WithoutAbstracts(candidates)` |
| `Linker.WithoutAbstracts` | scripts/linker.py:175-181 | the filter never returns more candidates than it was given |
| `Linker.WithoutAbstractsProperties` | scripts/linker.py:175-181 | the result is an order-preserving subsequence holding exactly the candidates whose `kb_abstract` is `None` or empty, each as many times as the input holds it; it is empty exactly when every candidate has a non-empty list |
| `Linker.WithoutAbstractsMultiset` | scripts/linker.py:175-181 | a candidate whose `kb_abstract` is `None` or empty occurs in the result as often as in the input; any other candidate does not occur |
| `Linker.FilterDropsCandidatesWithAbstracts` | scripts/linker.py:170-179 | contrary to the docstring and comment, every candidate with a non-empty abstract list is dropped and every one with an empty list is kept |
| `Linker.WithoutAbstractsIdempotent` | scripts/linker.py:175-181 | filtering twice equals filtering once |
| `Linker.WithoutAbstractsFirst` | scripts/linker.py:175-181 | the first candidate kept is the first one whose `kb_abstract` is falsy |
| `ScapyLinker.ArgMaxFirst` | scripts/scapy_linker.py:100-116 | the running-best index is among the first `n` |
| `ScapyLinker.ArgMaxFirstIsMax` | scripts/scapy_linker.py:101-116 | the chosen index holds a score at least every other score, and every earlier index scores strictly less |
| `ScapyLinker.ArgMaxFirstUnique` | scripts/scapy_linker.py:114-116 | the index holding the maximum with only smaller scores before it is the chosen one |
| `ScapyLinker.ArgMaxFirstTies` | scripts/scapy_linker.py:114-116 | when all scores are equal, the first candidate wins |
| `ScapyLinker.ScoreCandidate` | scripts/scapy_linker.py:103-106 | sets `kb_nouns` to the nouns of the joined abstracts and `similarity_score` to their score; all other fields are unchanged |
| `ScapyLinker.SelectBest` | scripts/scapy_linker.py:100-116 | every candidate gets the nouns of its space-joined abstracts and their score, and `kb_abstract`, id, labels, NER label and name stay unchanged; the result is the candidate at the first index of the maximum score |
| `ScapyLinker.OutputLine` | scripts/scapy_linker.py:126 | the text holds a newline exactly when one of its three fields does, so `print` writes one line when none does |
| `ScapyLinker.OutputLineFields` | scripts/scapy_linker.py:126 | the printed line is warc id, mention text and Freebase id separated by tabs; split at tabs it gives back the three fields |
| `ScapyLinker.AttachAbstracts` | scripts/scapy_linker.py:86-92 | each candidate gets the English abstracts of its reply; `KeyError` exactly when some reply lacks a key, raised at the first such reply after every earlier candidate got its list and before any later one is touched; name, NER label, id, labels, nouns and score never change |
| `ScapyLinker.KeptCandidates` | scripts/scapy_linker.py:94-97 | after attaching, the filter keeps nothing exactly when every list is non-empty |
| `ScapyLinker.KeptListsEmpty` | scripts/scapy_linker.py:94 | every kept candidate holds an empty list |
| `ScapyLinker.FirstKeptCandidate` | scripts/scapy_linker.py:94-100 | the first kept candidate, where selection starts, is the first one with an empty list |
| `ScapyLinker.EmptyAbstractsTie` | scripts/scapy_linker.py:103-116 | candidates with empty lists all score alike, so selection picks the first |
| `ScapyLinker.LinkAttached` | scripts/scapy_linker.py:94-126 | nothing is printed exactly when every list is non-empty; otherwise the line names the first candidate with an empty list; lists, names, NER labels, ids and labels are left as they were; a candidate with an empty list gets the nouns of `""` and their score, and every other candidate keeps its nouns and score |
| `ScapyLinker.LinkMention` | scripts/scapy_linker.py:86-126 | `KeyError` exactly when some reply lacks a key, leaving the later lists as they were and nothing scored; otherwise every candidate ends as `LinkAttached` leaves it, with the English abstracts of its reply, and the line is the one `LinkAttached` prints |
| `Preprocessing.FieldValue` | scripts/preprocessing.py:106 | `split(': ')[1]` is the text after the first `": "` up to the next one or the end; `IndexError` exactly when there is no `": "` |
| `Preprocessing.KeyValueCases` | scripts/scapy_preprocessing.py:85-96 | `None` exactly when no line starts with `WARC-TREC-ID`; otherwise the first such line's value, or `IndexError` exactly when that line has no `": "` (same in preprocessing.py and main.py) |
| `Preprocessing.FindId` | scripts/preprocessing.py:97-108 | the loop returns what `WarcId` specifies: the first key line's value, or `None` (same in main.py:79-90) |
| `Preprocessing.FindLabels` | scripts/preprocessing.py:86-94 | a `(key, label, id)` triple, none twice, exactly for each label found in the payload, and only when the key is non-empty; the key's `IndexError` propagates (same in main.py:68-76 and scapy_preprocessing.py:74-82) |
| `Preprocessing.SplitRecordsWith` | scripts/preprocessing.py:111-118 | the loop yields exactly `Records(isMarker, stream)` |
| `Preprocessing.SplitRecords` | scripts/main.py:93-100 | the payloads before each line that strips to `WARC/1.0` (same in preprocessing.py and scapy_preprocessing.py) |
| `Preprocessing.Records` | scripts/preprocessing.py:111-118 | never more payloads than lines |
| `Preprocessing.RecordsCount` | scripts/preprocessing.py:114-115 | exactly one payload per marker line |
| `Preprocessing.RecordsIgnoreTrailing` | scripts/scapy_preprocessing.py:99-106 | lines after the last marker never reach a payload |
| `Preprocessing.RecordsAreMarkerFree` | scripts/main.py:93-100 | every payload is the concatenation of a run of non-marker lines ended by a marker, so no marker line is part of a payload |
| `Preprocessing.RemoveCodeBlocks` | scripts/main.py:103-120 | the loop returns the kept lines `CodeFree` specifies (same in preprocessing.py:135-152) |
| `Preprocessing.CodeFree` | scripts/preprocessing.py:141-152 | the kept lines are at most the `n` lines looked at, each one of them |
| `Preprocessing.InBlockStep` | scripts/preprocessing.py:144-149 | the flag is set by an opening line, cleared by a closing line, and otherwise kept |
| `Preprocessing.CodeFreeProperties` | scripts/preprocessing.py:141-152 | the result is an ordered subsequence of the lines with no line starting with `<!--` or `//-->`; a line inside a block adds nothing |
| `Preprocessing.SplitHeaders` | scripts/main.py:134-146 | with exactly one `Content-Type: text/html; charset=UTF-8`, the text before and after it; with none, `UnboundLocalError`; with two or more, `ValueError` (same in preprocessing.py:120-132) |
| `Preprocessing.RemoveNumberFromString` | scripts/preprocessing.py:217-223 | an ordered subsequence holding every non-digit character as often as the token does and no digit |
| `Preprocessing.RemoveNumberIdempotent` | scripts/preprocessing.py:223 | removing digits twice equals removing them once |
| `Preprocessing.RemoveAlphanumeric` | scripts/preprocessing.py:207-214 | an ordered subsequence holding every letter and digit as often as the token does and nothing else |
| `Preprocessing.RemoveAlphanumericIdempotent` | scripts/preprocessing.py:213-214 | the substitution is idempotent |
| `Preprocessing.CleanedTokenIsLetters` | scripts/preprocessing.py:305-306 | the two cleaning steps together leave only letters |
| `Preprocessing.RemoveHexFromString` | scripts/preprocessing.py:236-242 | the result is never longer than the token and is what remains of it after deleting some characters, in order |
| `Preprocessing.RemoveHexScan` | scripts/preprocessing.py:242 | the left-to-right scan of `re.sub`: everything before the first digit followed by `A`-`F` is kept, that pair is deleted, and the substitution goes on after it |
| `Preprocessing.RemoveHexUnchanged` | scripts/preprocessing.py:242 | a token is unchanged exactly when it has no digit followed by `A`-`F`; otherwise it gets shorter |
| `Preprocessing.RemoveHexNotIdempotent` | scripts/preprocessing.py:242 | the substitution is one left-to-right pass over non-overlapping pairs: `11AA` becomes `1A`, which becomes empty |
| `Preprocessing.RemoveStopWords` | scripts/preprocessing.py:192-204 | an ordered subsequence holding every tagged token whose word is not a stop word, as often as the input does, and no other |
| `Preprocessing.Runs` | scripts/preprocessing.py:252 | `groupby` by tag: non-empty runs, neighbours differing in tag, which concatenate back to the input |
| `Preprocessing.Prepend` | scripts/preprocessing.py:252 | a token joins the first run exactly when their tags agree, keeping the runs maximal |
| `Preprocessing.ProperNames` | scripts/preprocessing.py:253-254 | no more names than runs |
| `Preprocessing.ProperNamesMeaning` | scripts/preprocessing.py:253-254 | a name comes out for each `NNP` run of two or more tokens, as its words joined by spaces, and for nothing else |
| `Preprocessing.ProperNamesSingle` | scripts/preprocessing.py:253-254 | one run gives its space-joined words when it is an `NNP` run of two or more tokens, and nothing otherwise |
| `Preprocessing.ProperNamesAppend` | scripts/preprocessing.py:253-254 | the names of two stretches of runs are those of the first followed by those of the second, so names come out run by run in the order of the runs |
| `Preprocessing.GroupConsecutiveGroups` | scripts/preprocessing.py:245-256 | no more names than tokens |
| `Preprocessing.LoneProperNounDropped` | scripts/preprocessing.py:254 | a lone `NNP` between other tags yields no name |
| `Preprocessing.ProperNounPairJoined` | scripts/preprocessing.py:253-254 | two consecutive `NNP` words yield one name, `a b` |
| `ScapyPreprocessing.ClearText` | scripts/scapy_preprocessing.py:123-127 | no tab or newline remains; text without them is unchanged |
| `ScapyPreprocessing.ClearTextChar` | scripts/scapy_preprocessing.py:124-125 | a tab becomes `". "`, a newline `" "`, any other character stays |
| `ScapyPreprocessing.ClearTextAppend` | scripts/scapy_preprocessing.py:124-125 | the rewrite is character by character, so it distributes over concatenation |
| `ScapyPreprocessing.ClearTextIdempotent` | scripts/scapy_preprocessing.py:123-127 | cleaning twice equals cleaning once |
| `ScapyPreprocessing.ScapySplitHeaders` | scripts/scapy_preprocessing.py:130-150 | `(None, None)` exactly when `Content-Type:` does not occur exactly twice; the only exception is `IndexError` |
| `ScapyPreprocessing.ThreePieces` | scripts/scapy_preprocessing.py:138 | with two occurrences, the split gives headers, middle and tail around them |
| `ScapyPreprocessing.ScapySplitHeadersTwice` | scripts/scapy_preprocessing.py:138-143 | with two occurrences, the split gives `headers`, `mid` and `tail` around them; `IndexError` exactly when that `tail` has no newline; otherwise the result is `headers` and the text of `tail` after its first newline |
| `ScapyPreprocessing.ScapySplitHeadersOnce` | scripts/scapy_preprocessing.py:137-140 | one occurrence gives `(None, None)`, because the failed unpacking is absorbed by the bare `except` |
| `ScapyPreprocessing.NerFilter` | scripts/scapy_preprocessing.py:171-177 | an ordered subsequence holding every entity whose label is one of the ten types, as often as the input does, and no other |
| `ScapyPreprocessing.NerFilterDate` | scripts/scapy_preprocessing.py:157 | `DATE` is not passed; `PERSON` is |
| `ScapyPreprocessing.NerFilterAllLinkable` | scripts/scapy_preprocessing.py:157-177 | the filter keeps the list whole exactly when every label is one of the ten types |

## Left out

- The HTTP requests of `search`, `get_best_candidates` and `get_kb_info_by_candidate`, and `scripts/sparql.py`. They are network I/O; their decoded replies are parameters.
- `sparql` (scripts/sparql.py:9-24) prints the decoded reply and returns `None`, so `get_kb_info_by_candidate` (scripts/linker.py:103-114) returns `None`. As written, `trident_response["results"]` at scripts/linker.py:160 then raises `TypeError` for the first candidate of every mention. `ScapyLinker.LinkMention` and `ScapyLinker.AttachAbstracts` take the decoded reply the knowledge base sends instead, which is what the loop is evidently written for.
- `Linker.BuildKbQuery`, `Linker.BuildKbQueryForAbstracts`: the `print query` at scripts/linker.py:129 and :149 writes each query to standard output; the model returns the query and does not model the output.
- `scripts/process_run.py` and `scripts/example.py`: a subprocess call and a command-line front end, outside the core.
- The noun extractor `extract_nouns_from_text` and the similarity measure `similarity_measure` (scripts/scapy_linker.py:105-106). Neither is defined in the repository, so they are uninterpreted parameters. The document context `document_results` is unbound at that point; it is a parameter too. As written, those names do not resolve and the loop would raise on its first candidate. The model assumes no metric and proves selection for every `score`.
- `ScapyLinker.SelectBest`: scores are modelled as Dafny `real`s under `>`. Python 2's ordering across mixed types (such as `None`) is not modelled.
- `scripts/scapy_linker.py` passes `entity.Entity` objects from `find_candidates` and gives them the fields `kb_abstract`, `kb_nouns` and `similarity_score` on the fly. The model uses `ScapyEntity.Candidate`, which declares those fields.
- `Candidate.__str__` (scripts/scapy_entity.py:35-36) is a local function inside `__init__` and is never bound. `Candidate` therefore has no string form of its own, and the model gives it none.
- Python subclassing of `Entity` by `Mention` and `Candidate`: each class declares the inherited fields itself.
- `Entity.Entity.ToString`: Python leaves the printed order of a set's elements open, so the label set's text is a parameter.
- `Linker.FindCandidates`: the order of the entities follows the dictionary's iteration order, which Python leaves open, so any order is allowed.
- `Linker.NormaliseId`: takes a string id. A `None` id, where a hit lacked `resource`, would raise `TypeError` at the slice; that path is not modelled.
- `ElasticSearch.Hit`: `_score` is always present and real. A missing `_score` (`None`) sorted among numbers under Python 2 is not modelled.
- `log_candidates`, `map_logging_level`, `set_logger` and every logging call: global logging configuration and output.
- NLTK and spaCy: `tokenizer`, `stemming`, `lemmatization`, `pos_tagging`, `prerequisites`, the stop-word load and `spacy.load`. Their outputs (tagged tokens, stop-word set, recognised entities) are parameters. The `utf-8` re-encoding in `spacy_ner` is not modelled.
- `get_text_from_webpage`: BeautifulSoup HTML extraction, a foreign parser.
- The gzip file drivers `preprocessing.main`, `scapy_preprocessing.preprocess`, the `__main__` block of `scripts/main.py` and `linker.main`. They are file I/O with record-count limits. `preprocess` never yields.
- `split_records` takes the stream as a sequence of lines, each with its terminator. Reading the lines from the gzip file is not modelled.
- `Preprocessing.RemoveNumberFromString`, `Preprocessing.RemoveAlphanumeric`: digits and word characters are the ASCII ones. Under Python 3, `str.isdigit` and `[\W_]` also count non-ASCII digits and letters, so the model agrees with the source on ASCII tokens only.
- `Preprocessing.FindLabels`: `labels` is a Dafny `map`, which has no order, so the triples may come in any order. Under Python 3, `labels.items()` (scripts/preprocessing.py:92) iterates in insertion order, so the source yields the triples in the order in which the labels were inserted. The model does not capture that order; it fixes only which triples are yielded, each once.
- `Preprocessing.SplitRecords`, `Preprocessing.FindId`, `Preprocessing.FindLabels`: the Python 2 copies in `scripts/scapy_preprocessing.py` split byte strings, which break lines only at `\n`, `\r` and `\r\n` and strip only space and `\t`-`\r`. The model uses the text-string sets of the Python 3 copies for all three files.
