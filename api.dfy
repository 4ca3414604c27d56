/**
 * The decision rules of the HTTP layer: the `chat` keyword classifier, and
 * `check_similarity`, which queries the similarity service with fixed settings
 * and maps its results to `SimilarityResult` records.
 */
module Api {
  import opened Wrappers
  import opened Text
  import opened ExactMatch
  import opened Similarity
  import StableSort

  // ---------------------------------------------------------------------------
  // chat

  /** The `type` field of a chat reply. */
  datatype ReplyType = Acceptance | RevisionRequest | Message {
    /** The string the reply carries. */
    function Name(): string {
      match this
      case Acceptance => "acceptance"
      case RevisionRequest => "revision_request"
      case Message => "message"
    }
  }

  /** The reply of `chat`: its `type`, `message` and, when present,
      `next_action`. */
  datatype ChatReply = ChatReply(kind: ReplyType, message: string, nextAction: Option<string>)

  const AcceptKeywords: seq<string> := ["accept", "yes", "ok", "confirm"]
  const RevisionKeywords: seq<string> := ["reject", "no", "revise", "change"]

  /** No keyword both accepts and asks for a revision, so the classification
      is unique. */
  lemma KeywordListsDisjoint()
    ensures forall w :: w in AcceptKeywords ==> w !in RevisionKeywords
  {
  }

  /** `user_message.message.strip().lower()`. */
  function Keyword(message: string): string {
    Lower(Strip(message))
  }

  /** `chat`: an accepting keyword asks for the similarity check, a rejecting
      keyword asks for refinement, and anything else gets a pointer to the
      specific endpoints and no next action. */
  function Chat(message: string): (r: ChatReply)
    ensures r.kind == Acceptance <==> Keyword(message) in AcceptKeywords
    ensures r.kind == RevisionRequest <==> Keyword(message) in RevisionKeywords
    ensures r.kind == Message <==> Keyword(message) !in AcceptKeywords + RevisionKeywords
    ensures r.kind == Acceptance ==> r.nextAction == Some("similarity_check")
    ensures r.kind == RevisionRequest ==> r.nextAction == Some("refinement")
    ensures r.kind == Message ==> r.nextAction == None
    ensures r.kind.Name() == "acceptance" <==> Keyword(message) in AcceptKeywords
    ensures r.kind.Name() == "revision_request" <==> Keyword(message) in RevisionKeywords
    ensures r.kind.Name() == "message" <==> Keyword(message) !in AcceptKeywords + RevisionKeywords
  {
    KeywordListsDisjoint();
    var keyword := Keyword(message);
    if keyword in AcceptKeywords then
      ChatReply(Acceptance, "Question accepted! Checking for similar questions...", Some("similarity_check"))
    else if keyword in RevisionKeywords then
      ChatReply(RevisionRequest,
                "Please provide your revised question or describe what changes you'd like.",
                Some("refinement"))
    else
      ChatReply(Message,
                "Please use /api/validate, /api/refine, or /api/similarity endpoints for specific operations.",
                None)
  }

  /** The classification does not depend on letter case. */
  lemma ChatIgnoresCase(message1: string, message2: string)
    requires Lower(message1) == Lower(message2)
    ensures Chat(message1) == Chat(message2)
  {
    LowerStripCommute(message1);
    LowerStripCommute(message2);
  }

  /** The classification does not depend on surrounding whitespace. */
  lemma ChatIgnoresSurroundingSpace(before: string, message: string, after: string)
    requires AllSpace(before) && AllSpace(after)
    ensures Chat(before + message + after) == Chat(message)
  {
    StripSurrounded(before, message, after);
  }

  // ---------------------------------------------------------------------------
  // check_similarity

  /** `SimilarityResult`: one similar question as the API reports it. */
  datatype SimilarityResult = SimilarityResult(
    questionId: int, question: string, similarityScore: real, domain: string, subdomain: string)

  /** `SimilarityResponse`. */
  datatype SimilarityResponse = SimilarityResponse(
    similarQuestions: seq<SimilarityResult>, threshold: real,
    exactMatchFound: bool, exactMatchId: Option<int>)

  /** The category reported for a record that has none. */
  const UnknownCategory: string := "Unknown"

  /** The threshold `check_similarity` queries with and reports back. */
  const SimilarityThreshold: real := 0.8

  /** `find_similar`'s default `top_k`, which `check_similarity` does not override. */
  const DefaultTopK: int := 10

  function ToSimilarityResult(m: Match): SimilarityResult {
    SimilarityResult(m.record.id, m.record.text, m.similarity,
                     m.record.domain.GetOr(UnknownCategory), m.record.subdomain.GetOr(UnknownCategory))
  }

  /** The list comprehension over the service's `results`: one record per
      result, in the same order, with the result's id, question and similarity,
      and its domain and subdomain or "Unknown" where the record has none. */
  function ToSimilarityResults(results: seq<Match>): (out: seq<SimilarityResult>)
    ensures |out| == |results|
    ensures forall i :: 0 <= i < |results| ==>
              && out[i].questionId == results[i].record.id
              && out[i].question == results[i].record.text
              && out[i].similarityScore == results[i].similarity
    ensures forall i :: 0 <= i < |results| ==>
              && (results[i].record.domain.Some? ==> out[i].domain == results[i].record.domain.value)
              && (results[i].record.domain.None? ==> out[i].domain == UnknownCategory)
              && (results[i].record.subdomain.Some? ==> out[i].subdomain == results[i].record.subdomain.value)
              && (results[i].record.subdomain.None? ==> out[i].subdomain == UnknownCategory)
  {
    if results == [] then []
    else [ToSimilarityResult(results[0])] + ToSimilarityResults(results[1..])
  }

  /** `check_similarity`: queries with threshold 0.8, the default `top_k` of 10
      and exact matches excluded, and reports the mapped results, the exact-match
      flags and the threshold. */
  method CheckSimilarity(service: SimilarityService, message: string, search: IndexSearch, cosine: CosineOracle)
    returns (response: SimilarityResponse)
    ensures var found := FindSimilarSpec(service.questions, service.index, message, SimilarityThreshold,
                                         DefaultTopK, true, search, cosine);
            response == SimilarityResponse(ToSimilarityResults(found.results), SimilarityThreshold,
                                           found.exactMatchFound, found.exactMatchId)
    ensures response.threshold == 0.8
    ensures |response.similarQuestions| <= 10
    ensures forall q :: q in response.similarQuestions ==> q.similarityScore >= 0.8
    ensures forall i, j :: 0 <= i < j < |response.similarQuestions| ==>
              response.similarQuestions[i].similarityScore >= response.similarQuestions[j].similarityScore
    ensures response.exactMatchFound <==> response.exactMatchId.Some?
  {
    var found := service.FindSimilar(message, SimilarityThreshold, DefaultTopK, true, search, cosine);
    var similarQuestions := ToSimilarityResults(found.results);
    response := SimilarityResponse(similarQuestions, SimilarityThreshold, found.exactMatchFound, found.exactMatchId);
    forall q | q in similarQuestions ensures q.similarityScore >= 0.8 {
      var i :| 0 <= i < |similarQuestions| && similarQuestions[i] == q;
      assert found.results[i] in found.results;
    }
  }
}
