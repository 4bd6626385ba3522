/**
 * The analysis record exchanged between the backend (app.py builds it) and
 * the frontend (QuestionCard, BatchSummary, SimilarityBar and the analysis
 * panel read it). A JSON field that is absent or `null` is `None`.
 */
module Records {
  import opened Wrappers

  /** One entry of `top_chunks`: a retrieved syllabus passage. */
  datatype TopChunk = TopChunk(
    text: string,
    distance: real,
    similarity: real,
    moduleName: Option<string>)

  /** One analysed question. */
  datatype AnalysisRecord = AnalysisRecord(
    question: string,
    similarityScore: Option<real>,
    isInSyllabus: Option<bool>,
    gatekeeperPassed: Option<bool>,
    reason: Option<string>,
    topChunks: seq<TopChunk>,
    llmDecision: Option<string>,
    llmJustification: Option<string>)

  /** JavaScript truthiness of an optional boolean field. */
  predicate Truthy(b: Option<bool>)
  {
    b == Some(true)
  }

  /** JavaScript `score >= bound` when `score` may be undefined or null (then false, for a positive bound). */
  predicate ScoreAtLeast(score: Option<real>, bound: real)
  {
    score.Some? && score.value >= bound
  }
}
