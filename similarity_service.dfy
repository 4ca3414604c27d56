/**
 * `SimilarityService`: a corpus of questions, a vector index over their
 * embeddings, and `find_similar`, which scans the index's nearest candidates
 * for a query, keeps those at or above a threshold, flags the ones that are the
 * query itself, and returns them ranked by similarity.
 *
 * The embedding model and the FAISS index are foreign, floating-point code.
 * A query's search enters as an `IndexSearch`: for the number of rows asked
 * for, the `(score, row)` candidates the index returned, or `SearchFailed` when
 * encoding the query or searching raised.
 */
module Similarity {
  import opened Wrappers
  import opened ExactMatch
  import StableSort

  /** A corpus record as the service reads it: `id`, `question`, and the
      optional `domain` and `subdomain`. */
  datatype Question = Question(id: int, text: string, domain: Option<string>, subdomain: Option<string>)

  /** One row of the index's answer: the inner product of the normalized query
      and corpus embeddings, and the row of the corpus record it belongs to. */
  datatype Candidate = Candidate(score: real, row: nat)

  datatype SearchOutcome = Hits(rows: seq<Candidate>) | SearchFailed

  /** Embedding the query and searching the index for the given number of rows. */
  type IndexSearch = int -> SearchOutcome

  /** An entry of `results`: a copy of the corpus record extended with
      `similarity` and `is_exact_match`. */
  datatype Match = Match(record: Question, similarity: real, isExactMatch: bool)

  /** What `find_similar` returns: `results`, `exact_match_found`,
      `exact_match_id`. */
  datatype Outcome = Outcome(results: seq<Match>, exactMatchFound: bool, exactMatchId: Option<int>)

  /** The answer on every degenerate path: no index, an empty corpus, or an
      exception while searching. */
  const NoMatches: Outcome := Outcome([], false, None)

  /** The FAISS `IndexFlatIP` the service builds: one row per corpus record. */
  datatype VectorIndex = FlatInnerProduct(ntotal: nat)

  /** The sort key of `results`. */
  function SimilarityOf(m: Match): real {
    m.similarity
  }

  function Max(a: int, b: int): int {
    if a < b then b else a
  }

  /** `min(top_k * 2, len(self.questions))`: the number of rows asked of the
      index, twice the wanted count so that exclusions leave enough. */
  function RequestedCount(topK: int, corpusSize: nat): (k: int)
    ensures k <= corpusSize && k <= 2 * topK
    ensures k == corpusSize || k == 2 * topK
  {
    if 2 * topK <= corpusSize then 2 * topK else corpusSize
  }

  // ---------------------------------------------------------------------------
  // The scan over the candidates, stated candidate by candidate

  /** The inputs of one scan; `isExact` is the exact-match test against the
      query. */
  datatype ScanParams = ScanParams(
    questions: seq<Question>, threshold: real, topK: int,
    excludeExact: bool, isExact: string -> bool)

  /** The test `find_similar` applies to a candidate's question:
      `_are_texts_similar(query_question, question_text, threshold=0.99)`. */
  function ExactTest(query: string, cosine: CosineOracle): string -> bool {
    text => AreTextsSimilar(query, text, ExactMatchThreshold, cosine)
  }

  /** The candidate passes the threshold (inclusively) and names a corpus row. */
  predicate Accepted(p: ScanParams, c: Candidate) {
    c.score >= p.threshold && c.row < |p.questions|
  }

  /** The candidate's question is judged identical or nearly identical to the
      query. */
  predicate JudgedExact(p: ScanParams, c: Candidate)
    requires c.row < |p.questions|
  {
    p.isExact(p.questions[c.row].text)
  }

  /** An accepted candidate that is an exact match: it sets the exact-match flags. */
  predicate FlagsExact(p: ScanParams, c: Candidate) {
    Accepted(p, c) && JudgedExact(p, c)
  }

  /** An accepted candidate that is not excluded: it becomes a result. */
  predicate Kept(p: ScanParams, c: Candidate) {
    Accepted(p, c) && !(p.excludeExact && JudgedExact(p, c))
  }

  /** The result entry a kept candidate becomes. */
  function ToMatch(p: ScanParams, c: Candidate): Match
    requires c.row < |p.questions|
  {
    Match(p.questions[c.row], c.score, JudgedExact(p, c))
  }

  /** The entries the candidates `cs` contribute, in scan order. */
  function Matches(p: ScanParams, cs: seq<Candidate>): seq<Match> {
    if cs == [] then []
    else
      var c := cs[|cs| - 1];
      Matches(p, cs[..|cs| - 1]) + (if Kept(p, c) then [ToMatch(p, c)] else [])
  }

  /** Some candidate of `cs` is an accepted exact match. */
  predicate AnyExact(p: ScanParams, cs: seq<Candidate>) {
    exists j :: 0 <= j < |cs| && FlagsExact(p, cs[j])
  }

  /** The id of the last accepted exact match in `cs`, if any. */
  function LastExactId(p: ScanParams, cs: seq<Candidate>): Option<int> {
    if cs == [] then None
    else
      var c := cs[|cs| - 1];
      if FlagsExact(p, c) then Some(p.questions[c.row].id) else LastExactId(p, cs[..|cs| - 1])
  }

  /** How many candidates the scan examines from position `i` on, when `kept`
      results were collected before `i`: it stops right after the candidate that
      brings the count of results to `topK`, and otherwise sees them all. */
  function ExaminedFrom(p: ScanParams, cs: seq<Candidate>, i: nat, kept: nat): (n: nat)
    requires i <= |cs|
    ensures i <= n <= |cs|
    decreases |cs| - i
  {
    if i == |cs| then i
    else if Kept(p, cs[i]) && kept + 1 >= p.topK then i + 1
    else ExaminedFrom(p, cs, i + 1, if Kept(p, cs[i]) then kept + 1 else kept)
  }

  /** The number of candidates the scan examines. */
  function Examined(p: ScanParams, cs: seq<Candidate>): (n: nat)
    ensures n <= |cs|
  {
    ExaminedFrom(p, cs, 0, 0)
  }

  /** The scan's answer: the examined candidates' entries, stably sorted by
      descending similarity, and the exact-match flags they set. */
  function ScanOutcome(p: ScanParams, cs: seq<Candidate>): Outcome {
    var n := Examined(p, cs);
    Outcome(StableSort.SortDescending(Matches(p, cs[..n]), SimilarityOf),
            AnyExact(p, cs[..n]), LastExactId(p, cs[..n]))
  }

  /** What `find_similar` answers, given the corpus, the index and the search. */
  function FindSimilarSpec(
    questions: seq<Question>, index: Option<VectorIndex>, query: string, threshold: real,
    topK: int, excludeExact: bool, search: IndexSearch, cosine: CosineOracle): Outcome
  {
    if index.None? || questions == [] then NoMatches
    else match search(RequestedCount(topK, |questions|))
      case SearchFailed => NoMatches
      case Hits(cs) => ScanOutcome(ScanParams(questions, threshold, topK, excludeExact, ExactTest(query, cosine)), cs)
  }

  // ---------------------------------------------------------------------------
  // One step of the scan

  lemma MatchesSnoc(p: ScanParams, cs: seq<Candidate>, c: Candidate)
    ensures Matches(p, cs + [c]) == Matches(p, cs) + (if Kept(p, c) then [ToMatch(p, c)] else [])
  {
    assert (cs + [c])[..|cs|] == cs;
  }

  lemma LastExactIdSnoc(p: ScanParams, cs: seq<Candidate>, c: Candidate)
    ensures LastExactId(p, cs + [c]) == if FlagsExact(p, c) then Some(p.questions[c.row].id) else LastExactId(p, cs)
  {
    assert (cs + [c])[..|cs|] == cs;
  }

  lemma AnyExactSnoc(p: ScanParams, cs: seq<Candidate>, c: Candidate)
    ensures AnyExact(p, cs + [c]) <==> AnyExact(p, cs) || FlagsExact(p, c)
  {
    var t := cs + [c];
    assert t[|cs|] == c;
    assert forall j :: 0 <= j < |cs| ==> t[j] == cs[j];
  }

  // ---------------------------------------------------------------------------
  // What the candidates contribute

  /** Every entry comes from a kept candidate: it is that candidate's record with
      its score and its exact-match judgement. */
  lemma {:induction false} MatchesSound(p: ScanParams, cs: seq<Candidate>)
    ensures forall m :: m in Matches(p, cs) ==>
              exists j :: 0 <= j < |cs| && Kept(p, cs[j]) && m == ToMatch(p, cs[j])
  {
    if cs != [] {
      var init := cs[..|cs| - 1];
      MatchesSound(p, init);
      forall m | m in Matches(p, cs)
        ensures exists j :: 0 <= j < |cs| && Kept(p, cs[j]) && m == ToMatch(p, cs[j])
      {
        if m in Matches(p, init) {
          var j :| 0 <= j < |init| && Kept(p, init[j]) && m == ToMatch(p, init[j]);
          assert init[j] == cs[j];
        } else {
          assert Kept(p, cs[|cs| - 1]) && m == ToMatch(p, cs[|cs| - 1]);
        }
      }
    }
  }

  /** Every kept candidate contributes its entry. */
  lemma {:induction false} MatchesComplete(p: ScanParams, cs: seq<Candidate>, j: nat)
    requires j < |cs| && Kept(p, cs[j])
    ensures ToMatch(p, cs[j]) in Matches(p, cs)
  {
    var init := cs[..|cs| - 1];
    var c := cs[|cs| - 1];
    assert Matches(p, cs) == Matches(p, init) + (if Kept(p, c) then [ToMatch(p, c)] else []);
    if j < |init| {
      assert init[j] == cs[j];
      MatchesComplete(p, init, j);
    } else {
      assert cs[j] == c;
      assert ToMatch(p, c) in (if Kept(p, c) then [ToMatch(p, c)] else []);
    }
  }

  lemma {:induction false} MatchesLength(p: ScanParams, cs: seq<Candidate>)
    ensures |Matches(p, cs)| <= |cs|
  {
    if cs != [] {
      MatchesLength(p, cs[..|cs| - 1]);
    }
  }

  /** The scan collects at most `topK` entries (at most one when `topK` is not
      positive, since the count is checked only after an entry is added), and it
      stops early only once it has collected `topK`. */
  lemma {:induction false} ExaminedFromCount(p: ScanParams, cs: seq<Candidate>, i: nat, kept: nat)
    requires i <= |cs|
    requires kept == |Matches(p, cs[..i])| && kept < Max(p.topK, 1)
    ensures |Matches(p, cs[..ExaminedFrom(p, cs, i, kept)])| <= Max(p.topK, 1)
    ensures ExaminedFrom(p, cs, i, kept) < |cs| ==> |Matches(p, cs[..ExaminedFrom(p, cs, i, kept)])| >= p.topK
    decreases |cs| - i
  {
    if i < |cs| {
      var c := cs[i];
      assert cs[..i + 1] == cs[..i] + [c];
      MatchesSnoc(p, cs[..i], c);
      var kept' := |Matches(p, cs[..i + 1])|;
      assert kept' == if Kept(p, c) then kept + 1 else kept;
      if Kept(p, c) && kept + 1 >= p.topK {
        assert ExaminedFrom(p, cs, i, kept) == i + 1;
      } else {
        assert ExaminedFrom(p, cs, i, kept) == ExaminedFrom(p, cs, i + 1, kept');
        ExaminedFromCount(p, cs, i + 1, kept');
      }
    } else {
      assert ExaminedFrom(p, cs, i, kept) == i;
    }
  }

  /** `exact_match_id` is `None` exactly when no accepted candidate was an exact
      match; otherwise it is the id of the last one. */
  lemma {:induction false} LastExactIdIsLast(p: ScanParams, cs: seq<Candidate>)
    ensures LastExactId(p, cs).None? <==> !AnyExact(p, cs)
    ensures LastExactId(p, cs).Some? ==>
              exists j :: 0 <= j < |cs| && FlagsExact(p, cs[j])
                          && LastExactId(p, cs).value == p.questions[cs[j].row].id
                          && forall j2 :: j < j2 < |cs| ==> !FlagsExact(p, cs[j2])
  {
    if cs != [] {
      var init := cs[..|cs| - 1];
      var c := cs[|cs| - 1];
      assert cs == init + [c];
      LastExactIdIsLast(p, init);
      AnyExactSnoc(p, init, c);
      if !FlagsExact(p, c) && LastExactId(p, init).Some? {
        var j :| 0 <= j < |init| && FlagsExact(p, init[j])
                 && LastExactId(p, init).value == p.questions[init[j].row].id
                 && forall j2 :: j < j2 < |init| ==> !FlagsExact(p, init[j2]);
        assert init[j] == cs[j];
        assert forall j2 :: j < j2 < |cs| ==> !FlagsExact(p, cs[j2]) by {
          forall j2 | j < j2 < |cs| ensures !FlagsExact(p, cs[j2]) {
            if j2 < |init| { assert init[j2] == cs[j2]; }
          }
        }
      }
    }
  }

  // ---------------------------------------------------------------------------
  // What the scan returns

  /** Every result has a similarity at or above the threshold. */
  lemma ScanAboveThreshold(p: ScanParams, cs: seq<Candidate>)
    ensures forall m :: m in ScanOutcome(p, cs).results ==> m.similarity >= p.threshold
  {
    var ms := Matches(p, cs[..Examined(p, cs)]);
    StableSort.SortSameElements(ms, SimilarityOf);
    MatchesSound(p, cs[..Examined(p, cs)]);
  }

  /** At most `topK` results (one if `topK` is not positive), never more than
      there were candidates, and fewer than `topK` only if every candidate was
      examined. */
  lemma ScanBounded(p: ScanParams, cs: seq<Candidate>)
    ensures |ScanOutcome(p, cs).results| <= Max(p.topK, 1)
    ensures |ScanOutcome(p, cs).results| <= |cs|
    ensures |ScanOutcome(p, cs).results| < p.topK ==> Examined(p, cs) == |cs|
  {
    var ms := Matches(p, cs[..Examined(p, cs)]);
    StableSort.SortPermutes(ms, SimilarityOf);
    assert cs[..0] == [];
    ExaminedFromCount(p, cs, 0, 0);
    MatchesLength(p, cs[..Examined(p, cs)]);
  }

  /** The results are ordered by non-increasing similarity. */
  lemma ScanSorted(p: ScanParams, cs: seq<Candidate>)
    ensures StableSort.SortedDescending(ScanOutcome(p, cs).results, SimilarityOf)
  {
    StableSort.SortSorted(Matches(p, cs[..Examined(p, cs)]), SimilarityOf);
  }

  /** Results with equal similarity keep the order in which their candidates
      were scanned. */
  lemma ScanStable(p: ScanParams, cs: seq<Candidate>, v: real)
    ensures StableSort.WithKey(ScanOutcome(p, cs).results, SimilarityOf, v)
         == StableSort.WithKey(Matches(p, cs[..Examined(p, cs)]), SimilarityOf, v)
  {
    StableSort.SortStable(Matches(p, cs[..Examined(p, cs)]), SimilarityOf, v);
  }

  /** Each result is a copy of the record of an examined candidate that passed
      the threshold, with that candidate's score as its similarity; its
      exact-match flag is the exact-match test of its question, and it is false
      when exact matches are excluded. */
  lemma ScanResultsAreCopies(p: ScanParams, cs: seq<Candidate>)
    ensures forall m :: m in ScanOutcome(p, cs).results ==>
              exists j :: 0 <= j < Examined(p, cs) && Accepted(p, cs[j])
                          && m.record == p.questions[cs[j].row] && m.similarity == cs[j].score
    ensures forall m :: m in ScanOutcome(p, cs).results ==>
              m.isExactMatch == p.isExact(m.record.text)
    ensures p.excludeExact ==> forall m :: m in ScanOutcome(p, cs).results ==> !m.isExactMatch
  {
    var n := Examined(p, cs);
    var ms := Matches(p, cs[..n]);
    StableSort.SortSameElements(ms, SimilarityOf);
    MatchesSound(p, cs[..n]);
    forall m | m in ScanOutcome(p, cs).results
      ensures exists j :: 0 <= j < n && Accepted(p, cs[j])
                          && m.record == p.questions[cs[j].row] && m.similarity == cs[j].score
    {
      var j :| 0 <= j < n && Kept(p, cs[..n][j]) && m == ToMatch(p, cs[..n][j]);
      assert cs[..n][j] == cs[j];
    }
  }

  /** No examined candidate that passes the threshold is lost, unless it is an
      exact match and exact matches are excluded. */
  lemma ScanComplete(p: ScanParams, cs: seq<Candidate>)
    ensures forall j :: 0 <= j < Examined(p, cs) && Kept(p, cs[j]) ==>
              ToMatch(p, cs[j]) in ScanOutcome(p, cs).results
  {
    var n := Examined(p, cs);
    var ms := Matches(p, cs[..n]);
    StableSort.SortSameElements(ms, SimilarityOf);
    forall j | 0 <= j < n && Kept(p, cs[j]) ensures ToMatch(p, cs[j]) in ms {
      assert cs[..n][j] == cs[j];
      MatchesComplete(p, cs[..n], j);
    }
  }

  /** `exact_match_found` is false exactly when `exact_match_id` is `None`; when
      it is true, the id is that of the last examined candidate that passed the
      threshold and was judged an exact match. */
  lemma ScanExactMatchId(p: ScanParams, cs: seq<Candidate>)
    ensures !ScanOutcome(p, cs).exactMatchFound <==> ScanOutcome(p, cs).exactMatchId.None?
    ensures ScanOutcome(p, cs).exactMatchFound ==>
              exists j :: 0 <= j < Examined(p, cs) && FlagsExact(p, cs[j])
                          && ScanOutcome(p, cs).exactMatchId == Some(p.questions[cs[j].row].id)
                          && forall j2 :: j < j2 < Examined(p, cs) ==> !FlagsExact(p, cs[j2])
  {
    var n := Examined(p, cs);
    var e := cs[..n];
    LastExactIdIsLast(p, e);
    if AnyExact(p, e) {
      var j :| 0 <= j < |e| && FlagsExact(p, e[j])
               && LastExactId(p, e).value == p.questions[e[j].row].id
               && forall j2 :: j < j2 < |e| ==> !FlagsExact(p, e[j2]);
      assert e[j] == cs[j];
      forall j2 | j < j2 < n ensures !FlagsExact(p, cs[j2]) {
        assert e[j2] == cs[j2];
      }
    }
  }

  /** The properties of `find_similar`'s answer on every path. */
  lemma FindSimilarSpecProperties(
    questions: seq<Question>, index: Option<VectorIndex>, query: string, threshold: real,
    topK: int, excludeExact: bool, search: IndexSearch, cosine: CosineOracle)
    ensures var r := FindSimilarSpec(questions, index, query, threshold, topK, excludeExact, search, cosine);
      && (forall m :: m in r.results ==> m.similarity >= threshold)
      && |r.results| <= Max(topK, 1)
      && StableSort.SortedDescending(r.results, SimilarityOf)
      && (excludeExact ==> forall m :: m in r.results ==> !m.isExactMatch)
      && (forall m :: m in r.results ==>
            m.isExactMatch == AreTextsSimilar(query, m.record.text, ExactMatchThreshold, cosine))
      && (r.exactMatchFound <==> r.exactMatchId.Some?)
  {
    if index.Some? && questions != [] {
      match search(RequestedCount(topK, |questions|))
      case SearchFailed =>
      case Hits(cs) =>
        var p := ScanParams(questions, threshold, topK, excludeExact, ExactTest(query, cosine));
        ScanAboveThreshold(p, cs);
        ScanBounded(p, cs);
        ScanSorted(p, cs);
        ScanResultsAreCopies(p, cs);
        ScanExactMatchId(p, cs);
    }
  }

  /** When the index returns no more rows than were asked for, as a flat
      index does, there are never more results than corpus records, and none at
      all when `topK` is not positive. */
  lemma FindSimilarWithinRequest(
    questions: seq<Question>, index: Option<VectorIndex>, query: string, threshold: real,
    topK: int, excludeExact: bool, search: IndexSearch, cosine: CosineOracle)
    requires search(RequestedCount(topK, |questions|)).Hits? ==>
               |search(RequestedCount(topK, |questions|)).rows| <= RequestedCount(topK, |questions|)
    ensures var r := FindSimilarSpec(questions, index, query, threshold, topK, excludeExact, search, cosine);
      |r.results| <= |questions| && |r.results| <= Max(topK, 0)
  {
    if index.Some? && questions != [] {
      match search(RequestedCount(topK, |questions|))
      case SearchFailed =>
      case Hits(cs) =>
        ScanBounded(ScanParams(questions, threshold, topK, excludeExact, ExactTest(query, cosine)), cs);
    }
  }

  // ---------------------------------------------------------------------------
  // The service object

  class SimilarityService {
    /** The corpus, loaded once when the service is created. */
    const questions: seq<Question>
    /** The vector index, or `None` when there was nothing to index or building
        it failed. */
    var index: Option<VectorIndex>

    /** `__init__`: `loaded` is what `_load_questions` read from the questions
        file, and `encodingSucceeds` says whether embedding the corpus and
        adding it to the index completed without an exception. */
    constructor (loaded: seq<Question>, encodingSucceeds: bool)
      ensures questions == loaded
      ensures index == if loaded == [] || !encodingSucceeds then None else Some(FlatInnerProduct(|loaded|))
    {
      questions := loaded;
      index := None;
      new;
      BuildIndex(encodingSucceeds);
    }

    /** `_build_index`: no index for an empty corpus or when encoding raised;
        otherwise a flat inner-product index with one row per record. */
    method BuildIndex(encodingSucceeds: bool)
      modifies this
      ensures index == if questions == [] || !encodingSucceeds then None else Some(FlatInnerProduct(|questions|))
    {
      if questions == [] {
        index := None;
        return;
      }
      if encodingSucceeds {
        index := Some(FlatInnerProduct(|questions|));
      } else {
        index := None;
      }
    }

    /** `find_similar`: the corpus questions most similar to `query`, at most
        `topK` of them, each at or above `threshold`, ranked by similarity, with
        exact matches flagged and, if `excludeExact`, left out. */
    method FindSimilar(
      query: string, threshold: real, topK: int, excludeExact: bool,
      search: IndexSearch, cosine: CosineOracle) returns (r: Outcome)
      ensures r == FindSimilarSpec(questions, index, query, threshold, topK, excludeExact, search, cosine)
      ensures index.None? || questions == [] ==> r == NoMatches
      ensures forall m :: m in r.results ==> m.similarity >= threshold
      ensures |r.results| <= Max(topK, 1)
      ensures StableSort.SortedDescending(r.results, SimilarityOf)
      ensures excludeExact ==> forall m :: m in r.results ==> !m.isExactMatch
      ensures forall m :: m in r.results ==>
                m.isExactMatch == AreTextsSimilar(query, m.record.text, ExactMatchThreshold, cosine)
      ensures r.exactMatchFound <==> r.exactMatchId.Some?
    {
      if index.None? || |questions| == 0 {
        FindSimilarSpecProperties(questions, index, query, threshold, topK, excludeExact, search, cosine);
        return NoMatches;
      }
      var k := RequestedCount(topK, |questions|);
      var found := search(k);
      if found.SearchFailed? {
        FindSimilarSpecProperties(questions, index, query, threshold, topK, excludeExact, search, cosine);
        return NoMatches;
      }
      r := ScanCandidates(found.rows, query, threshold, topK, excludeExact, cosine);
      FindSimilarSpecProperties(questions, index, query, threshold, topK, excludeExact, search, cosine);
    }

    /** The loop of `find_similar` over the index's candidates `cs`, and the
        final sort. */
    method ScanCandidates(
      cs: seq<Candidate>, query: string, threshold: real, topK: int, excludeExact: bool,
      cosine: CosineOracle) returns (r: Outcome)
      ensures r == ScanOutcome(ScanParams(questions, threshold, topK, excludeExact, ExactTest(query, cosine)), cs)
    {
      ghost var p := ScanParams(questions, threshold, topK, excludeExact, ExactTest(query, cosine));
      var exactMatchFound := false;
      var exactMatchId: Option<int> := None;
      var results: seq<Match> := [];
      ghost var n := |cs|;
      for i := 0 to |cs|
        invariant results == Matches(p, cs[..i])
        invariant exactMatchFound == AnyExact(p, cs[..i])
        invariant exactMatchId == LastExactId(p, cs[..i])
        invariant Examined(p, cs) == ExaminedFrom(p, cs, i, |results|)
        invariant n == |cs|
      {
        var c := cs[i];
        assert cs[..i + 1] == cs[..i] + [c];
        MatchesSnoc(p, cs[..i], c);
        LastExactIdSnoc(p, cs[..i], c);
        AnyExactSnoc(p, cs[..i], c);
        if c.score >= threshold && c.row < |questions| {
          var questionText := questions[c.row].text;
          var isExactMatch := AreTextsSimilar(query, questionText, ExactMatchThreshold, cosine);
          assert isExactMatch == JudgedExact(p, c);
          if isExactMatch {
            exactMatchFound := true;
            exactMatchId := Some(questions[c.row].id);
            if excludeExact {
              continue;
            }
          }
          results := results + [Match(questions[c.row], c.score, isExactMatch)];
          if |results| >= topK {
            n := i + 1;
            break;
          }
        }
      }
      assert results == Matches(p, cs[..n]) && n == Examined(p, cs);
      assert exactMatchFound == AnyExact(p, cs[..n]) && exactMatchId == LastExactId(p, cs[..n]);
      results := StableSort.SortDescending(results, SimilarityOf);
      r := Outcome(results, exactMatchFound, exactMatchId);
    }
  }
}
