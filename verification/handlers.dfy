/**
  The pure part of the two `doc-embed` port handlers of the background
  worker. The embedding model is a parameter `embed` from a text to either a
  vector or an error message, and a failure to load the model is a parameter
  `loadFailure`; both reach the handlers' `catch` blocks.
 */
module Handlers {
  import opened Documents
  import opened Similarity
  import opened Ranking

  /** The messages the worker posts back on the port. */
  datatype Response =
    | DocumentEmbeddingCompleted(embeddings: seq<EmbeddedDoc>)
    | DocumentEmbeddingFailed(error: string)
    | SearchCompleted(results: seq<ScoredDoc>)

  /** Every fragment's text embeds without error. */
  predicate AllEmbedded(docs: seq<Fragment>, embed: string -> Result<Vector>) {
    forall i :: 0 <= i < |docs| ==> embed(docs[i].text).Success?
  }

  /** The position of the first fragment whose text fails to embed. */
  function FirstFailure(docs: seq<Fragment>, embed: string -> Result<Vector>): (k: nat)
    requires !AllEmbedded(docs, embed)
    ensures k < |docs| && embed(docs[k].text).Failure?
    ensures forall i :: 0 <= i < k ==> embed(docs[i].text).Success?
    decreases |docs|
  {
    if embed(docs[0].text).Failure? then 0
    else
      assert !AllEmbedded(docs[1..], embed) by {
        var i :| 0 <= i < |docs| && embed(docs[i].text).Failure?;
        assert docs[1..][i - 1] == docs[i];
      }
      1 + FirstFailure(docs[1..], embed)
  }

  /** `create-document-embedding`: embed each fragment in order and attach
      the vector to it. The first error ends the loop, and the only message
      posted is then the failure with that error. */
  method CreateDocumentEmbedding(documents: seq<Fragment>, loadFailure: Option<string>,
                                 embed: string -> Result<Vector>) returns (resp: Response)
    ensures !resp.SearchCompleted?
    ensures loadFailure.Some? ==> resp == DocumentEmbeddingFailed(loadFailure.value)
    ensures loadFailure.None? ==> (resp.DocumentEmbeddingCompleted? <==> AllEmbedded(documents, embed))
    ensures resp.DocumentEmbeddingCompleted? ==>
      |resp.embeddings| == |documents| &&
      forall i :: 0 <= i < |documents| ==>
        resp.embeddings[i] == EmbeddedDoc(documents[i], embed(documents[i].text).value)
    ensures loadFailure.None? && !AllEmbedded(documents, embed) ==>
      resp == DocumentEmbeddingFailed(embed(documents[FirstFailure(documents, embed)].text).error)
  {
    if loadFailure.Some? {
      return DocumentEmbeddingFailed(loadFailure.value);
    }
    var candidateResults: seq<EmbeddedDoc> := [];
    var i := 0;
    while i < |documents|
      invariant 0 <= i <= |documents|
      invariant |candidateResults| == i
      invariant forall k :: 0 <= k < i ==>
        embed(documents[k].text).Success? &&
        candidateResults[k] == EmbeddedDoc(documents[k], embed(documents[k].text).value)
    {
      var output := embed(documents[i].text);
      if output.Failure? {
        return DocumentEmbeddingFailed(output.error);
      }
      candidateResults := candidateResults + [EmbeddedDoc(documents[i], output.value)];
      i := i + 1;
    }
    resp := DocumentEmbeddingCompleted(candidateResults);
  }

  /** Every candidate vector has the query's dimension. */
  predicate SameDimension(query: Vector, candidates: seq<EmbeddedDoc>) {
    forall i :: 0 <= i < |candidates| ==> |candidates[i].embedding| == |query|
  }

  /** `candidateResults.map(candidate => ({ ...candidate, score }))`. */
  function ScoreAll(query: Vector, candidates: seq<EmbeddedDoc>, sqrt: real -> real): (r: seq<ScoredDoc>)
    requires SameDimension(query, candidates)
    ensures |r| == |candidates|
    ensures forall i :: 0 <= i < |r| ==> r[i].candidate == candidates[i]
  {
    seq(|candidates|, i requires 0 <= i < |candidates| =>
      ScoredDoc(candidates[i], Cosine(query, candidates[i].embedding, sqrt)))
  }

  /** The query embeds and the stored vectors match its dimension. */
  predicate SearchRequirement(candidates: seq<EmbeddedDoc>, searchText: string,
                              embed: string -> Result<Vector>) {
    embed(searchText).Success? ==> SameDimension(embed(searchText).value, candidates)
  }

  /** Every ranked result is a stored candidate, scored by its cosine with
      the query. */
  lemma RankedScores(query: Vector, candidates: seq<EmbeddedDoc>, sqrt: real -> real)
    requires SameDimension(query, candidates)
    ensures var results := Rank(ScoreAll(query, candidates, sqrt));
      forall i :: 0 <= i < |results| ==>
        results[i].candidate in candidates &&
        results[i].score == Cosine(query, results[i].candidate.embedding, sqrt)
  {
    var scored := ScoreAll(query, candidates, sqrt);
    var results := Rank(scored);
    RankSpec(scored);
    forall i | 0 <= i < |results|
      ensures results[i].candidate in candidates
      ensures results[i].score == Cosine(query, results[i].candidate.embedding, sqrt)
    {
      assert multiset(results)[results[i]] > 0;
      assert results[i] in multiset(scored);
      var k :| 0 <= k < |scored| && scored[k] == results[i];
    }
  }

  /** `search-document-embedding` as the worker means it: score every stored
      candidate against the query, rank, and post the result; a failure to
      load the model or to embed the query is posted as a failure. */
  function SearchDocumentEmbedding(candidates: seq<EmbeddedDoc>, searchText: string,
                                   loadFailure: Option<string>, embed: string -> Result<Vector>,
                                   sqrt: real -> real): (resp: Response)
    requires SearchRequirement(candidates, searchText, embed)
    ensures resp.DocumentEmbeddingFailed? <==> loadFailure.Some? || embed(searchText).Failure?
    ensures loadFailure.Some? ==> resp.error == loadFailure.value
    ensures loadFailure.None? && embed(searchText).Failure? ==> resp.error == embed(searchText).error
    ensures resp.SearchCompleted? ==>
      var query := embed(searchText).value;
      var results := resp.results;
      SortedByScore(results) &&
      (forall i :: 0 <= i < |results| ==>
         results[i].score > Threshold &&
         results[i].candidate in candidates &&
         results[i].score == Cosine(query, results[i].candidate.embedding, sqrt)) &&
      (forall x :: multiset(results)[x] ==
         if x.score > Threshold then multiset(ScoreAll(query, candidates, sqrt))[x] else 0) &&
      (forall s :: WithScore(results, s) ==
         if s > Threshold then WithScore(ScoreAll(query, candidates, sqrt), s) else [])
  {
    if loadFailure.Some? then DocumentEmbeddingFailed(loadFailure.value)
    else if embed(searchText).Failure? then DocumentEmbeddingFailed(embed(searchText).error)
    else
      var query := embed(searchText).value;
      var scored := ScoreAll(query, candidates, sqrt);
      RankSpec(scored);
      var results := Rank(scored);
      RankedScores(query, candidates, sqrt);
      SearchCompleted(results)
  }

  /** The search handler as written: the `try` block scores, ranks and
      posts; its `catch` block formats `err`, a name that only the other
      handler binds, so the `ReferenceError` escapes and nothing is posted.
      `None` stands for "no message". */
  function SearchDocumentEmbeddingAsWritten(candidates: seq<EmbeddedDoc>, searchText: string,
                                            loadFailure: Option<string>, embed: string -> Result<Vector>,
                                            sqrt: real -> real): (resp: Option<Response>)
    requires SearchRequirement(candidates, searchText, embed)
    ensures resp.None? <==> loadFailure.Some? || embed(searchText).Failure?
    ensures resp.Some? ==> resp.value.SearchCompleted?
    ensures resp.Some? ==>
      SortedByScore(resp.value.results) &&
      forall i :: 0 <= i < |resp.value.results| ==> resp.value.results[i].score > Threshold
  {
    if loadFailure.Some? || embed(searchText).Failure? then None
    else
      var scored := ScoreAll(embed(searchText).value, candidates, sqrt);
      RankSpec(scored);
      Some(SearchCompleted(Rank(scored)))
  }

  /** The two versions agree whenever the search succeeds, and a failed
      search that should be reported leaves the popup with no answer. */
  lemma SearchFailureIsSilent(candidates: seq<EmbeddedDoc>, searchText: string,
                              loadFailure: Option<string>, embed: string -> Result<Vector>,
                              sqrt: real -> real)
    requires SearchRequirement(candidates, searchText, embed)
    ensures var asWritten := SearchDocumentEmbeddingAsWritten(candidates, searchText, loadFailure, embed, sqrt);
            var intended := SearchDocumentEmbedding(candidates, searchText, loadFailure, embed, sqrt);
            (intended.SearchCompleted? ==> asWritten == Some(intended)) &&
            (intended.DocumentEmbeddingFailed? ==> asWritten == None)
  {}
}
