# Similar-question search of the mathematical question refinement chatbot

This project models the part of the chatbot backend that decides things:

- The similarity service (`SimilarityService`). It holds a corpus of questions and a flat inner-product vector index over their embeddings.
  - `find_similar` scans the index's nearest candidates for a query.
  - It keeps those at or above a threshold.
  - It flags the candidates whose text is identical or nearly identical to the query, and leaves them out if asked. Two texts are flagged when their normal forms (`_normalize_text`) are equal, or when their embedding cosine is at least 0.99 (`_are_texts_similar`).
  - It stops once it holds `top_k` results and returns them stably sorted by descending similarity.
- The HTTP layer's decision rules.
  - The `chat` keyword classifier.
  - The mapping in `check_similarity` from the service's results to `SimilarityResult` records.

Modules:

- `Wrappers` (`wrappers.dfy`): `Option`.
- `Text` (`text.dfy`): the Python string operations the service and `chat` use, on `seq<char>`.
  - The whitespace set of `str.isspace`, which `strip()` and `\s` use, and `str.strip`.
  - `re.sub(r'\s+', ' ', …)`.
  - `str.lower`.
  - `Text.Split` and `Text.JoinWithSpaces` model `str.split()` and `" ".join`, which the code never calls. They are an independent reference form: `Text.CollapseStripIsJoinedSplit` proves that the whitespace collapse of similarity_service.py:101 equals `" ".join(s.split())`.
- `ExactMatch` (`exact_match.dfy`): `_normalize_text` and `_are_texts_similar`.
- `StableSort` (`stable_sort.dfy`): `list.sort(key=…, reverse=True)`. It is a stable descending sort, proved ordered, a permutation, and stable.
- `Similarity` (`similarity_service.dfy`): the corpus records, the candidate scan, and the class `SimilarityService`.
  - The class has the corpus and the mutable `index` field.
  - Its constructor and `BuildIndex` set the field.
  - `FindSimilar` takes the early exits of `find_similar` and hands the index's candidates to `ScanCandidates`.
  - `ScanCandidates` is the `for` loop with `continue` and `break`, followed by the sort. It is proved against the reference definition `ScanOutcome`, and `FindSimilar` against `FindSimilarSpec`.
- `Api` (`api.dfy`): `chat`, the result mapping, and `check_similarity`.

Foreign code enters as parameters:

- An `IndexSearch` stands for encoding the query and searching the index for `k` rows.
  - It yields the `(score, row)` candidates in the order the index returns them.
  - It yields `SearchFailed` when either step raises.
- A `CosineOracle` stands for the embedding cosine of two normalized texts.
  - It yields `None` when encoding raises.
- Whether encoding the corpus succeeds when the index is built is a boolean argument.

What the code does not do, and the model therefore does not do either:

- `find_similar` does not reject a blank query (backend/services/similarity_service.py:135-167). A blank query is searched like any other.
- There is no "not initialized" error. A service without an index answers with empty results (backend/services/similarity_service.py:151-157).
- Equal scores are not re-ordered by corpus row. The sort at backend/services/similarity_service.py:201 is stable, so equal scores keep the order in which the index returned the candidates.

## Model

| member | source | states |
|---|---|---|
| Wrappers.Option.GetOr | backend/main.py:164-165 | `dict.get(key, default)`: the value when present, the default otherwise |
| Text.IsSpace | backend/services/similarity_service.py:101 | the characters `str.isspace`, `strip()` and the regular-expression class `\s` treat as whitespace: U+0009–U+000D, U+001C–U+0020, U+0085, U+00A0, U+1680, U+2000–U+200A, U+2028, U+2029, U+202F, U+205F and U+3000; no contract of its own, the strip and collapse lemmas rest on it |
| Text.TrimStart | backend/services/similarity_service.py:101 | `lstrip()` is no longer than its input, the characters it drops from the front are whitespace, and the result does not start with whitespace |
| Text.TrimStartIsSuffix | backend/services/similarity_service.py:101 | what `lstrip()` keeps is a suffix of the input |
| Text.TrimStartCut | backend/services/similarity_service.py:101 | the part `lstrip()` cuts off is all whitespace |
| Text.TrimStartSplits | backend/services/similarity_service.py:101 | the input is a run of whitespace followed by what `lstrip()` keeps |
| Text.TrimEnd | backend/services/similarity_service.py:101 | `rstrip()` is no longer than its input, the characters it drops from the back are whitespace, and the result does not end with whitespace |
| Text.TrimEndIsPrefix | backend/services/similarity_service.py:101 | what `rstrip()` keeps is a prefix of the input |
| Text.TrimEndCut | backend/services/similarity_service.py:101 | the part `rstrip()` cuts off is all whitespace |
| Text.TrimEndSplits | backend/services/similarity_service.py:101 | the input is what `rstrip()` keeps followed by a run of whitespace |
| Text.StripShape | backend/services/similarity_service.py:101 | the input is what `strip()` keeps with runs of whitespace before and after it, and what it keeps has no whitespace at either end |
| Text.StripEdges | backend/services/similarity_service.py:101 | what `strip()` keeps has no whitespace at either end |
| Text.Strip | backend/services/similarity_service.py:101 | `strip()`, as stripping the back of the front-stripped text; no contract of its own, see `Text.StripShape`, `Text.StripEdges`, `Text.StripNoEdge` and `Text.StripSurrounded` |
| Text.LowerChar | backend/services/similarity_service.py:103 | lower-casing maps `A`–`Z` to `a`–`z` by adding 32 to the code point, leaves every other character alone, and keeps whitespace whitespace |
| Text.Lower | backend/services/similarity_service.py:103 | `lower()` keeps the length, lower-cases each character in place, and leaves no upper-case letter |
| Text.CollapseSpaces | backend/services/similarity_service.py:101 | `re.sub(r'\s+', ' ', …)` never lengthens a text |
| Text.CollapseSpacesEnds | backend/services/similarity_service.py:101 | the collapsed text is empty exactly when the input is; it starts with the input's first character, or with a plain space when the input starts with whitespace; and it does not end with whitespace when the input does not |
| Text.CollapseSpacesShape | backend/services/similarity_service.py:101 | after collapsing, every whitespace character is a plain space and no two whitespace characters are adjacent |
| Text.CollapseSpacesKeepsText | backend/services/similarity_service.py:101 | collapsing keeps every non-whitespace character, in order |
| Text.NonSpaceOfSpaces | backend/services/similarity_service.py:101 | a run of whitespace adds no non-whitespace characters to a text |
| Text.StripNoEdge | backend/services/similarity_service.py:101 | `strip()` is the identity on a text without whitespace at its ends |
| Text.CollapseSpacesNoDouble | backend/services/similarity_service.py:101 | collapsing is the identity on a text whose only whitespace is single plain spaces |
| Text.LowerNoUpper | backend/services/similarity_service.py:103 | `lower()` is the identity on a text without upper-case letters |
| Text.TrimStartSpaces | backend/services/similarity_service.py:101 | leading whitespace that is prepended is stripped again |
| Text.TrimEndSpaces | backend/services/similarity_service.py:101 | trailing whitespace that is appended is stripped again |
| Text.TrimStartAppend | backend/services/similarity_service.py:101 | stripping the front of a text that is not all whitespace ignores what was appended after it |
| Text.TrimStartAllSpace | backend/services/similarity_service.py:101 | a text of whitespace only strips to the empty text |
| Text.StripSurrounded | backend/main.py:188 | `strip()` ignores any whitespace placed around a text |
| Text.LowerTrimStart | backend/main.py:188 | lower-casing commutes with stripping the front |
| Text.LowerTrimEnd | backend/main.py:188 | lower-casing commutes with stripping the back |
| Text.LowerStripCommute | backend/main.py:188 | `s.strip().lower() == s.lower().strip()` |
| Text.WordPrefix | backend/services/similarity_service.py:101 | the first word of a text is a prefix of it that holds no whitespace, is followed by whitespace or the end, and is non-empty when the text starts with a non-whitespace character |
| Text.TrimEndPrepend | backend/services/similarity_service.py:101 | when a text is not all whitespace, stripping the back of it with something in front strips only that text |
| Text.CollapseSpacesAfterWord | backend/services/similarity_service.py:101 | collapsing a word followed by text keeps the word and collapses the rest |
| Text.TrimStartTrimEnd | backend/services/similarity_service.py:101 | stripping the front and stripping the back can be done in either order |
| Text.JoinWithSpacesCons | backend/services/similarity_service.py:101 | `" ".join` of a word followed by more words puts one space between them |
| Text.CollapseSpaceLed | backend/services/similarity_service.py:101 | collapsing a right-stripped text that starts with whitespace gives one space followed by the collapsed stripped text |
| Text.CollapseStripIsJoinedSplit | backend/services/similarity_service.py:101 | `re.sub(r'\s+', ' ', s.strip())` equals `" ".join(s.split())` |
| ExactMatch.NormalizeText | backend/services/similarity_service.py:97-103 | `_normalize_text`: strip, collapse whitespace runs to one space, lower-case; no contract of its own, see `ExactMatch.NormalizeTextIsNormal`, `ExactMatch.NormalizeTextIdempotent` and `ExactMatch.NormalizeTextJoinsWords` |
| ExactMatch.NormalizeTextIsNormal | backend/services/similarity_service.py:97-103 | a normalized text has no whitespace at either end, no two adjacent whitespace characters, no whitespace but the plain space, and no upper-case letter |
| ExactMatch.NormalFormIsFixed | backend/services/similarity_service.py:97-103 | normalizing a text already in normal form changes nothing |
| ExactMatch.NormalizeTextIdempotent | backend/services/similarity_service.py:97-103 | normalizing twice is normalizing once |
| ExactMatch.NormalizeTextJoinsWords | backend/services/similarity_service.py:97-103 | the normal form is the text's words, lower-cased and joined by single spaces |
| ExactMatch.AreTextsSimilar | backend/services/similarity_service.py:105-133 | `_are_texts_similar`; no contract of its own, see `ExactMatch.AreTextsSimilarCases`, `ExactMatch.EmbeddingFailureFallsBack`, `ExactMatch.SameWordsAreSimilar` and `ExactMatch.SimilarToOwnNormalization` |
| ExactMatch.AreTextsSimilarCases | backend/services/similarity_service.py:105-133 | texts with equal normal forms are similar whatever the embedding says; otherwise they are similar exactly when the embedding yields a cosine at or above the threshold |
| ExactMatch.EmbeddingFailureFallsBack | backend/services/similarity_service.py:131-133 | when the embedding raises, the texts are similar exactly when their normal forms are equal |
| ExactMatch.SameWordsAreSimilar | backend/services/similarity_service.py:117-122 | texts with the same words, spaced in any way, are similar whatever the embedding says |
| ExactMatch.SimilarToOwnNormalization | backend/services/similarity_service.py:105-122 | a text is similar to its own normal form in both argument orders |
| StableSort.Insert | backend/services/similarity_service.py:201 | one insertion step of the stable descending sort; no contract of its own, see `StableSort.InsertPermutes`, `StableSort.InsertSorted` and `StableSort.InsertWithKey` |
| StableSort.InsertPermutes | backend/services/similarity_service.py:201 | inserting an element adds exactly that element |
| StableSort.InsertSorted | backend/services/similarity_service.py:201 | inserting into a descending sequence keeps it descending |
| StableSort.WithKeyCons | backend/services/similarity_service.py:201 | the elements with a given key of a sequence that starts with `y` are `y` (if it has the key) followed by those of the rest |
| StableSort.InsertWithKey | backend/services/similarity_service.py:201 | an inserted element goes in front of the elements with its key, and the order of the others is kept |
| StableSort.SortDescending | backend/services/similarity_service.py:201 | `list.sort(key=…, reverse=True)`; no contract of its own, see `StableSort.SortPermutes`, `StableSort.SortSorted`, `StableSort.SortStable` and `StableSort.SortSameElements` |
| StableSort.SortPermutes | backend/services/similarity_service.py:201 | the sort returns a permutation of its input |
| StableSort.SortSorted | backend/services/similarity_service.py:201 | the sort returns its input in non-increasing key order |
| StableSort.SortStable | backend/services/similarity_service.py:201 | elements with equal keys keep their input order |
| StableSort.SortSameElements | backend/services/similarity_service.py:201 | the sort neither adds nor loses an element |
| Similarity.RequestedCount | backend/services/similarity_service.py:166 | the requested `k` is `min(2 * top_k, len(questions))`: at most both, and equal to one of them |
| Similarity.SimilarityOf | backend/services/similarity_service.py:201 | the sort key `lambda x: x["similarity"]`; no contract of its own, see `Similarity.ScanSorted` and `Similarity.ScanStable` |
| Similarity.Accepted | backend/services/similarity_service.py:176 | the guard `similarity >= threshold and idx < len(self.questions)`; no contract of its own, see `Similarity.ScanAboveThreshold`, `Similarity.ScanResultsAreCopies` and `Similarity.ScanComplete` |
| Similarity.JudgedExact | backend/services/similarity_service.py:177-180 | `is_exact_match`: the exact-match test applied to the candidate's question text; no contract of its own, see `Similarity.MatchesSound` and `Similarity.ScanResultsAreCopies` |
| Similarity.FlagsExact | backend/services/similarity_service.py:182-184 | an accepted candidate with `is_exact_match` true, which sets `exact_match_found` and `exact_match_id`; no contract of its own, see `Similarity.AnyExactSnoc`, `Similarity.LastExactIdSnoc` and `Similarity.ScanExactMatchId` |
| Similarity.Kept | backend/services/similarity_service.py:176-189 | an accepted candidate that the `continue` under `exclude_exact` does not skip; no contract of its own, see `Similarity.MatchesSound`, `Similarity.MatchesComplete` and `Similarity.ScanComplete` |
| Similarity.ToMatch | backend/services/similarity_service.py:191-193 | the record's copy with `similarity` and `is_exact_match` added; no contract of its own, see `Similarity.MatchesSound` and `Similarity.ScanResultsAreCopies` |
| Similarity.Matches | backend/services/similarity_service.py:174-194 | the `results.append` accumulation over the candidates, in scan order; no contract of its own, see `Similarity.MatchesSnoc`, `Similarity.MatchesSound`, `Similarity.MatchesComplete` and `Similarity.MatchesLength` |
| Similarity.AnyExact | backend/services/similarity_service.py:170-183 | `exact_match_found`: some accepted candidate was an exact match; no contract of its own, see `Similarity.AnyExactSnoc` and `Similarity.ScanExactMatchId` |
| Similarity.LastExactId | backend/services/similarity_service.py:171-184 | `exact_match_id`: the id of the last accepted exact match, or `None`; no contract of its own, see `Similarity.LastExactIdSnoc`, `Similarity.LastExactIdIsLast` and `Similarity.ScanExactMatchId` |
| Similarity.ExactTest | backend/services/similarity_service.py:180 | the exact-match test of a candidate's text against the query with threshold 0.99; no contract of its own, see `Similarity.ScanResultsAreCopies` and `Similarity.ScanExactMatchId` |
| Similarity.ExaminedFrom | backend/services/similarity_service.py:175-198 | the scan examines a prefix of the candidates that reaches at least the current position |
| Similarity.Examined | backend/services/similarity_service.py:175-198 | the scan never examines more candidates than the index returned |
| Similarity.MatchesSnoc | backend/services/similarity_service.py:175-194 | one more candidate adds its entry to the results when it is kept, and nothing otherwise |
| Similarity.LastExactIdSnoc | backend/services/similarity_service.py:182-184 | one more candidate that is an accepted exact match overwrites `exact_match_id`; any other candidate leaves it alone |
| Similarity.AnyExactSnoc | backend/services/similarity_service.py:182-183 | `exact_match_found` becomes true on an accepted exact match and then stays true |
| Similarity.MatchesSound | backend/services/similarity_service.py:176-194 | every entry is the record of a kept candidate, with that candidate's score and exact-match judgement |
| Similarity.MatchesComplete | backend/services/similarity_service.py:176-194 | every kept candidate contributes its entry |
| Similarity.MatchesLength | backend/services/similarity_service.py:175-194 | there are no more entries than candidates |
| Similarity.ExaminedFromCount | backend/services/similarity_service.py:194-198 | the scan collects at most `max(top_k, 1)` entries, and stops before the last candidate only once it holds `top_k` |
| Similarity.LastExactIdIsLast | backend/services/similarity_service.py:170-189 | `exact_match_id` is `None` exactly when no accepted candidate was an exact match, and otherwise is the id of the last one |
| Similarity.ScanOutcome | backend/services/similarity_service.py:170-201 | the reference definition of the candidate scan and the sort; no contract of its own, see `Similarity.ScanAboveThreshold`, `Similarity.ScanBounded`, `Similarity.ScanSorted`, `Similarity.ScanStable`, `Similarity.ScanResultsAreCopies`, `Similarity.ScanComplete` and `Similarity.ScanExactMatchId` |
| Similarity.ScanAboveThreshold | backend/services/similarity_service.py:176 | every result's similarity is at or above the threshold (inclusive) |
| Similarity.ScanBounded | backend/services/similarity_service.py:196-198 | at most `max(top_k, 1)` results and no more than the candidates; fewer than `top_k` only when every candidate was examined |
| Similarity.ScanSorted | backend/services/similarity_service.py:201 | the results are in non-increasing similarity order |
| Similarity.ScanStable | backend/services/similarity_service.py:201 | results with equal similarity keep their scan order |
| Similarity.ScanResultsAreCopies | backend/services/similarity_service.py:176-194 | each result copies the record of an examined, above-threshold candidate, with that candidate's score; its exact-match flag is the exact-match test of its question, and is false when exact matches are excluded |
| Similarity.ScanComplete | backend/services/similarity_service.py:176-194 | every examined above-threshold candidate is in the results, unless it is an exact match and exact matches are excluded |
| Similarity.ScanExactMatchId | backend/services/similarity_service.py:170-189 | `exact_match_found` is false exactly when `exact_match_id` is `None`; when true, the id is that of the last examined accepted exact match |
| Similarity.FindSimilarSpec | backend/services/similarity_service.py:135-217 | the reference definition of `find_similar` over its four paths; no contract of its own, see `Similarity.FindSimilarSpecProperties` and `Similarity.FindSimilarWithinRequest` |
| Similarity.FindSimilarSpecProperties | backend/services/similarity_service.py:135-217 | on every path (no index, empty corpus, failed search, scan), results are above the threshold, at most `max(top_k, 1)`, sorted, free of exact matches when excluded, flagged by the exact-match test, and the two exact-match fields agree |
| Similarity.FindSimilarWithinRequest | backend/services/similarity_service.py:166-198 | when the index returns at most the `k` rows asked for, there are no more results than corpus records, and none when `top_k` is not positive |
| Similarity.SimilarityService.constructor | backend/services/similarity_service.py:19-36 | the service keeps the loaded corpus, and has an index with one row per record exactly when the corpus is non-empty and encoding succeeded |
| Similarity.SimilarityService.BuildIndex | backend/services/similarity_service.py:68-95 | no index for an empty corpus or a failed encoding; otherwise a flat inner-product index with one row per record |
| Similarity.SimilarityService.ScanCandidates | backend/services/similarity_service.py:170-201 | the candidate loop with its `continue` and `break`, followed by the sort, computes the reference scan `ScanOutcome` over the candidates |
| Similarity.SimilarityService.FindSimilar | backend/services/similarity_service.py:135-217 | the answer is the reference definition `FindSimilarSpec`: empty results and no exact match without an index, on an empty corpus, or when the search raises; otherwise results above the threshold, at most `max(top_k, 1)`, sorted, exact matches flagged and excluded on request, the exact-match fields agreeing; the corpus is left unchanged |
| Api.ReplyType.Name | backend/main.py:191-208 | the `type` strings "acceptance", "revision_request" and "message"; no contract of its own, see `Api.Chat` |
| Api.KeywordListsDisjoint | backend/main.py:191-197 | no word is both an accepting and a rejecting keyword |
| Api.Keyword | backend/main.py:188 | `user_message.message.strip().lower()`; no contract of its own, see `Api.Chat`, `Api.ChatIgnoresCase` and `Api.ChatIgnoresSurroundingSpace` |
| Api.Chat | backend/main.py:181-209 | an accepting keyword gives an acceptance reply with next action "similarity_check", a rejecting keyword a revision request with next action "refinement", anything else a plain message with no next action, each case exactly when its condition holds; the reply's `type` string is "acceptance", "revision_request" or "message" exactly under the same conditions |
| Api.ChatIgnoresCase | backend/main.py:188 | messages that lower-case alike get the same reply |
| Api.ChatIgnoresSurroundingSpace | backend/main.py:188 | whitespace around a message does not change the reply |
| Api.ToSimilarityResult | backend/main.py:160-166 | one `SimilarityResult` built from one result; no contract of its own, see `Api.ToSimilarityResults` |
| Api.ToSimilarityResults | backend/main.py:159-168 | one record per result, in order, with the result's id, question and similarity, and its domain and subdomain or "Unknown" where the record has none |
| Api.CheckSimilarity | backend/main.py:144-175 | the response is the mapped answer of `find_similar` with threshold 0.8, `top_k` 10 and exact matches excluded; it echoes threshold 0.8, holds at most 10 results, all with scores of at least 0.8 and in non-increasing order, and its exact-match fields agree |

## Left out

- The sentence-transformer model, FAISS (`normalize_L2`, `IndexFlatIP`, `search`) and the cosine arithmetic are foreign floating-point code. They are the `IndexSearch` and `CosineOracle` parameters and the `encodingSucceeds` flag.
- Scores are `real`, not 32-bit or 64-bit floats. There is no NaN, rounding or `float()` conversion.
- FAISS row indices are natural numbers (`Candidate.row: nat`), so the `-1` that FAISS pads an answer with when it holds fewer than `k` rows cannot be expressed. The code asks for `k <= len(self.questions)` rows of an index with one row per record, so FAISS does not pad there; in Python a `-1` would pass the `idx < len(self.questions)` guard and select the last record. The model does not derive the absence of `-1` from the index size: it rests on the type of `row`. The guard itself is modelled.
- `_load_questions` reads files and parses JSON. Its result is the constructor's `loaded` argument. Records without `id` or `question` (the `KeyError` paths) are not modelled: a record always has both.
- A record's keys other than `id`, `question`, `domain` and `subdomain` are not modelled.
- Record ids: a record's `id` (`Similarity.Question.id`) is always an integer (`id: int`), never JSON `null`. In the source, an exact match whose record has `"id": null` gives `exact_match_found = True` with `exact_match_id = None` (backend/services/similarity_service.py:182-184). The proved equivalence of `exactMatchFound` and `exactMatchId.Some?` (in `Similarity.ScanExactMatchId`, `Similarity.SimilarityService.FindSimilar` and `Api.CheckSimilarity`) holds only because ids are integers.
- Api.ToSimilarityResults: a `domain` or `subdomain` of JSON `null` is treated like a missing one and becomes "Unknown". In the source, `r.get("domain", "Unknown")` returns `None` for a present `null` (backend/main.py:164-165). Pydantic then refuses `None` for the `str` field, and `check_similarity` answers with HTTP 500 (backend/main.py:176-178). The model does not have that error path.
- The vector index records only its row count, not the embeddings.
- Text.LowerChar: maps only `A`–`Z` and leaves every other character unchanged, including the non-ASCII capitals (such as U+00C9 and U+212A KELVIN SIGN) that Python's `str.lower()` maps.
- Text.Lower: lower-cases the ASCII letters only, while Python's `lower()` lower-cases every Unicode letter. There is no Unicode case table. `Text.IsSpace` does hold the full set of code points for which `str.isspace` is true. This changes `chat`: Python turns "O\u212A" (O followed by KELVIN SIGN) into "ok" and answers with an acceptance (backend/main.py:188-196), while `Api.Chat` answers that message with a plain `Message`. The normal forms of `_normalize_text` differ in the same way for non-ASCII capitals.
- Similarity.SimilarityService.FindSimilar: bounds the result count by `max(top_k, 1)`, not `top_k`. With `top_k` at most 0 the loop still appends one entry before it tests the count. `Similarity.FindSimilarWithinRequest` shows that no entry arrives at all when the index honours `k`.
- The in-place `results.sort(...)` is modelled as reassigning the local sequence to its sorted copy.
- FastAPI routing, the pydantic models as validators, `HTTPException` wrapping, the lazily created global services, `async`, and logging are not modelled.
- The validation and refinement services call a remote language model and are not part of this model.
