/**
 * The analysis endpoint of backend/app.py (`/analyze_question`) once the
 * request has been read: the question text is split into questions, each
 * question is looked up in the vector store, its similarity is gated
 * against the threshold, and one record per question is returned, in the
 * single shape when there is exactly one question and in the batch shape
 * otherwise.
 *
 * The vector store is a function parameter `query`; it is called with k = 3.
 * A list field of its answer that is absent or `None` is `None` here.
 */
module AnalyzeEndpoint {
  import opened Wrappers
  import opened Text
  import opened Records
  import opened QuestionCard
  import opened BatchSummary
  import opened QuestionSplitter
  import EvidenceHighlighter

  /** The `metadatas` entry of one retrieved passage: a dictionary, or some other value. */
  datatype Meta = MetaDict(moduleName: Option<string>) | NotADict

  /** What `vector_db.query(q_text, k=3)` returns. */
  datatype QueryResult = QueryResult(
    distances: Option<seq<seq<Option<real>>>>,
    documents: Option<seq<seq<string>>>,
    metadatas: Option<seq<seq<Meta>>>)

  /** The default of the `threshold` form field. */
  const DefaultThreshold: real := 0.2

  const PassReason := "Gatekeeper PASS (LLM Validator pending)"
  const FailReason := "Below similarity threshold"
  const PassJustification := "Similarity above threshold; LLM validator not yet integrated."

  /** Python's `x or default` on a list field: an absent, `None` or empty list gives the default. */
  function OrDefault<T>(x: Option<seq<T>>, fallback: seq<T>): (r: seq<T>)
    ensures x.Some? && x.value != [] ==> r == x.value
    ensures x.None? || x.value == [] ==> r == fallback
  {
    if x.None? || x.value == [] then fallback else x.value
  }

  /** `max(0.0, min(1.0, x))`. */
  function Clamp01(x: real): (r: real)
    ensures 0.0 <= r <= 1.0
    ensures 0.0 <= x <= 1.0 ==> r == x
    ensures x < 0.0 ==> r == 0.0
    ensures x > 1.0 ==> r == 1.0
  {
    if x < 0.0 then 0.0 else if x > 1.0 then 1.0 else x
  }

  /** A smaller distance never gives a smaller similarity. */
  lemma ClampedSimilarityAntitone(d1: real, d2: real)
    requires d1 <= d2
    ensures Clamp01(1.0 - d1) >= Clamp01(1.0 - d2)
  {
  }

  /** `result.get("distances") or []`. */
  function DistancesOf(r: QueryResult): seq<seq<Option<real>>>
  {
    OrDefault(r.distances, [])
  }

  /** The similarity of a question: from the first distance, 0 when there is none. */
  function Similarity(r: QueryResult): real
  {
    var distances := DistancesOf(r);
    if distances != [] && distances[0] != [] then
      match distances[0][0]
      case None => Clamp01(0.0)
      case Some(d) => Clamp01(1.0 - d)
    else 0.0
  }

  /**
   * The similarity is in [0, 1]; it is 0 without distances or when the
   * first one is missing, and otherwise the clamped `1 - d` of the first.
   */
  lemma SimilarityOfQuery(r: QueryResult)
    ensures 0.0 <= Similarity(r) <= 1.0
    ensures var ds := DistancesOf(r);
      (ds == [] || ds[0] == [] || ds[0][0].None?) ==> Similarity(r) == 0.0
    ensures var ds := DistancesOf(r);
      ds != [] && ds[0] != [] && ds[0][0].Some? ==>
        Similarity(r) == Clamp01(1.0 - ds[0][0].value) &&
        (0.0 <= ds[0][0].value <= 1.0 ==> Similarity(r) == 1.0 - ds[0][0].value)
  {
  }

  /** `meta.get("module") if isinstance(meta, dict) else None`. */
  function ModuleOf(meta: Meta): Option<string>
  {
    match meta
    case MetaDict(m) => m
    case NotADict => None
  }

  /** The `top_chunks` entry of one passage; a missing distance counts as 1.0. */
  function ChunkOf(d: Option<real>, doc: string, meta: Meta): (c: TopChunk)
    ensures c.text == doc && c.moduleName == ModuleOf(meta)
    ensures 0.0 <= c.similarity <= 1.0
    ensures d.None? ==> c.distance == 1.0 && c.similarity == 0.0
    ensures d.Some? ==> c.distance == d.value
  {
    var dist := d.GetOr(1.0);
    TopChunk(doc, dist, Clamp01(1.0 - dist), ModuleOf(meta))
  }

  function Min3(a: nat, b: nat, c: nat): nat
  {
    if a <= b && a <= c then a else if b <= c then b else c
  }

  /** The chunks of `zip(ds, docs, metas)`, which stops at the shortest of the three. */
  function ChunksOf(ds: seq<Option<real>>, docs: seq<string>, metas: seq<Meta>): seq<TopChunk>
  {
    var n := Min3(|ds|, |docs|, |metas|);
    seq(n, i requires 0 <= i < n => ChunkOf(ds[i], docs[i], metas[i]))
  }

  /** The chunk list of a query answer, empty when the first distance list is missing or empty. */
  function TopChunksOf(r: QueryResult): seq<TopChunk>
  {
    var distances := DistancesOf(r);
    var docs := OrDefault(r.documents, [[]]);
    var metas := OrDefault(r.metadatas, [[]]);
    if distances != [] && distances[0] != [] then ChunksOf(distances[0], docs[0], metas[0])
    else []
  }

  /**
   * There is one chunk per position of all three lists, built from that
   * position; every chunk similarity is in [0, 1].
   */
  lemma ChunksOfZip(ds: seq<Option<real>>, docs: seq<string>, metas: seq<Meta>)
    ensures |ChunksOf(ds, docs, metas)| <= |ds| && |ChunksOf(ds, docs, metas)| <= |docs|
    ensures |ChunksOf(ds, docs, metas)| <= |metas|
    ensures |ChunksOf(ds, docs, metas)| == |ds| || |ChunksOf(ds, docs, metas)| == |docs| ||
            |ChunksOf(ds, docs, metas)| == |metas|
    ensures forall i :: 0 <= i < |ChunksOf(ds, docs, metas)| ==>
      ChunksOf(ds, docs, metas)[i] == ChunkOf(ds[i], docs[i], metas[i]) &&
      ChunksOf(ds, docs, metas)[i].text == docs[i] &&
      0.0 <= ChunksOf(ds, docs, metas)[i].similarity <= 1.0
  {
  }

  /** The `top_chunks` loop: one chunk appended per step of the zip. */
  method BuildTopChunks(ds: seq<Option<real>>, docs: seq<string>, metas: seq<Meta>) returns (chunks: seq<TopChunk>)
    ensures chunks == ChunksOf(ds, docs, metas)
  {
    chunks := [];
    var n := Min3(|ds|, |docs|, |metas|);
    var i := 0;
    while i < n
      invariant 0 <= i <= n
      invariant |chunks| == i
      invariant forall j :: 0 <= j < i ==> chunks[j] == ChunkOf(ds[j], docs[j], metas[j])
    {
      var d: real := if ds[i].Some? then ds[i].value else 1.0;
      var sim := 1.0 - d;
      sim := if sim < 0.0 then 0.0 else if sim > 1.0 then 1.0 else sim;
      chunks := chunks + [TopChunk(docs[i], d, sim, ModuleOf(metas[i]))];
      i := i + 1;
    }
  }

  /**
   * The record of one question in the batch shape, the rule the single and
   * the batch branches both apply.
   */
  function QuestionResult(question: string, r: QueryResult, threshold: real): AnalysisRecord
  {
    var similarity := Similarity(r);
    var passed := similarity >= threshold;
    AnalysisRecord(
      question,
      Some(similarity),
      Some(passed),
      Some(passed),
      Some(if !passed then FailReason else PassReason),
      TopChunksOf(r),
      if passed then Some("YES") else None,
      if passed then Some(PassJustification) else None)
  }

  /** The single-question branch, as its two return statements write it out. */
  function SingleResult(question: string, r: QueryResult, threshold: real): AnalysisRecord
  {
    var similarity := Similarity(r);
    if !(similarity >= threshold) then
      AnalysisRecord(question, Some(similarity), Some(false), Some(false), Some(FailReason),
                     TopChunksOf(r), None, None)
    else
      AnalysisRecord(question, Some(similarity), Some(true), Some(true), Some(PassReason),
                     TopChunksOf(r), Some("YES"), Some(PassJustification))
  }

  /** The two copies of the per-question logic build the same record. */
  lemma SingleIsQuestionResult(question: string, r: QueryResult, threshold: real)
    ensures SingleResult(question, r, threshold) == QuestionResult(question, r, threshold)
  {
  }

  /**
   * The gate: `gatekeeper_passed` is exactly `similarity >= threshold` and
   * `is_in_syllabus` equals it; a decision "YES", the pass reason and the
   * justification are present iff the gate passed, and a failed gate
   * carries no decision.
   */
  lemma GateInvariant(question: string, r: QueryResult, threshold: real)
    ensures var rec := QuestionResult(question, r, threshold);
      rec.question == question && rec.topChunks == TopChunksOf(r) &&
      rec.similarityScore.Some? && 0.0 <= rec.similarityScore.value <= 1.0 &&
      rec.gatekeeperPassed == Some(rec.similarityScore.value >= threshold) &&
      rec.isInSyllabus == rec.gatekeeperPassed
    ensures var rec := QuestionResult(question, r, threshold);
      (rec.llmDecision.Some? <==> Truthy(rec.gatekeeperPassed)) &&
      (rec.llmDecision.Some? ==> rec.llmDecision == Some("YES")) &&
      (rec.llmJustification.Some? <==> Truthy(rec.gatekeeperPassed)) &&
      rec.reason == Some(if Truthy(rec.gatekeeperPassed) then PassReason else FailReason)
  {
    SimilarityOfQuery(r);
  }

  /** Lowering the threshold never fails a question that passed. */
  lemma GateMonotone(question: string, r: QueryResult, t1: real, t2: real)
    requires t1 <= t2 && Truthy(QuestionResult(question, r, t2).gatekeeperPassed)
    ensures Truthy(QuestionResult(question, r, t1).gatekeeperPassed)
  {
  }

  /**
   * On the endpoint's records the question card and the batch summary agree:
   * the verdict is `in` iff the gate passed and `out` otherwise, never
   * borderline.
   */
  lemma VerdictOfQuestionResult(question: string, r: QueryResult, threshold: real)
    ensures var rec := QuestionResult(question, r, threshold);
      DeriveVerdict(rec) == SummaryVerdict(rec) &&
      (DeriveVerdict(rec) == In <==> Similarity(r) >= threshold) &&
      DeriveVerdict(rec) != Borderline
  {
  }

  /** The response of the endpoint. */
  datatype Response =
    | Single(result: AnalysisRecord)       // "mode": "single", the record's fields at top level
    | Batch(results: seq<AnalysisRecord>)  // "mode": "batch", "questions": [...]
    | BadRequest(error: string)            // status 400

  /** The `questions` field of a response, as the analysis panel sees it. */
  function QuestionsFieldOf(resp: Response): EvidenceHighlighter.QuestionsField
  {
    match resp
    case Batch(rs) => EvidenceHighlighter.ArrayOf(rs)
    case _ => EvidenceHighlighter.Missing
  }

  /** One record per question, in order. */
  function BatchOf(questions: seq<string>, threshold: real, query: string -> QueryResult): seq<AnalysisRecord>
  {
    seq(|questions|, i requires 0 <= i < |questions| => QuestionResult(questions[i], query(questions[i]), threshold))
  }

  /** What the endpoint answers for the question field `field` in text mode. */
  function ResponseOf(field: string, threshold: Option<real>, query: string -> QueryResult): Response
  {
    var text := Strip(field);
    var t := threshold.GetOr(DefaultThreshold);
    if text == [] then BadRequest("Empty question")
    else
      var questions := QuestionsOf(text);
      if |questions| == 1 then Single(SingleResult(questions[0], query(questions[0]), t))
      else Batch(BatchOf(questions, t, query))
  }

  /**
   * A blank question is rejected; exactly one split question gives the
   * single shape; any other count, 0 included, gives a batch with one
   * record per question in split order; and the panel takes the batch
   * layout exactly for the batch shape.
   */
  lemma ResponseShape(field: string, threshold: Option<real>, query: string -> QueryResult)
    ensures var resp := ResponseOf(field, threshold, query);
      resp.BadRequest? <==> IsBlank(field)
    ensures var resp := ResponseOf(field, threshold, query);
      !IsBlank(field) ==>
        var questions := QuestionsOf(Strip(field));
        (resp.Single? <==> |questions| == 1) &&
        (resp.Single? ==> resp.result == QuestionResult(questions[0], query(questions[0]), threshold.GetOr(DefaultThreshold))) &&
        (resp.Batch? ==>
           |resp.results| == |questions| &&
           forall i :: 0 <= i < |questions| ==>
             resp.results[i] == QuestionResult(questions[i], query(questions[i]), threshold.GetOr(DefaultThreshold)))
    ensures EvidenceHighlighter.IsBatch(QuestionsFieldOf(ResponseOf(field, threshold, query))) <==>
            ResponseOf(field, threshold, query).Batch?
  {
    var text := Strip(field);
    if text != [] {
      var questions := QuestionsOf(text);
      if |questions| == 1 {
        SingleIsQuestionResult(questions[0], query(questions[0]), threshold.GetOr(DefaultThreshold));
      }
    }
  }

  /** On a batch the endpoint returns, the card rule and the summary rule give the same counts. */
  lemma BatchCountsAgree(questions: seq<string>, threshold: real, query: string -> QueryResult)
    ensures Tally(BatchOf(questions, threshold, query), CardRule) == Tally(BatchOf(questions, threshold, query), SummaryRule)
  {
    var rs := BatchOf(questions, threshold, query);
    forall i | 0 <= i < |rs| && Truthy(rs[i].gatekeeperPassed)
      ensures rs[i].llmDecision == Some("YES")
    {
      GateInvariant(questions[i], query(questions[i]), threshold);
    }
    RulesAgreeWhenGatedMeansYes(rs);
  }

  /** The batch loop: one record appended per question. */
  method BuildBatch(questions: seq<string>, threshold: real, query: string -> QueryResult)
    returns (results: seq<AnalysisRecord>)
    ensures results == BatchOf(questions, threshold, query)
  {
    results := [];
    ghost var expected := BatchOf(questions, threshold, query);
    var i := 0;
    while i < |questions|
      invariant 0 <= i <= |questions|
      invariant results == expected[..i]
    {
      var record := AnalyzeOne(questions[i], threshold, query);
      assert record == expected[i];
      assert expected[..i + 1] == expected[..i] + [expected[i]];
      results := results + [record];
      i := i + 1;
    }
  }

  /** The body of the batch loop for one question. */
  method AnalyzeOne(qText: string, threshold: real, query: string -> QueryResult) returns (record: AnalysisRecord)
    ensures record == QuestionResult(qText, query(qText), threshold)
  {
    var result := query(qText);
    var distances := DistancesOf(result);
    var docs: seq<seq<string>> := OrDefault(result.documents, [[]]);
    var metas: seq<seq<Meta>> := OrDefault(result.metadatas, [[]]);
    var similarity := 0.0;
    var topChunks: seq<TopChunk> := [];
    if distances != [] && distances[0] != [] {
      var firstDistance: Option<real> := distances[0][0];
      if firstDistance.None? {
        similarity := 0.0;
      } else {
        similarity := 1.0 - firstDistance.value;
      }
      similarity := Clamp01(similarity);
      topChunks := BuildTopChunks(distances[0], docs[0], metas[0]);
    }
    var passed := similarity >= threshold;
    record := AnalysisRecord(
      qText,
      Some(similarity),
      Some(passed),
      Some(passed),
      Some(if !passed then FailReason else PassReason),
      topChunks,
      if passed then Some("YES") else None,
      if passed then Some(PassJustification) else None);
  }

  /** `analyze()` in text mode, from the question field on. */
  method Analyze(field: string, threshold: Option<real>, query: string -> QueryResult) returns (resp: Response)
    ensures resp == ResponseOf(field, threshold, query)
  {
    var t := threshold.GetOr(DefaultThreshold);
    var questionText := Strip(field);
    if questionText == [] {
      return BadRequest("Empty question");
    }
    var questions := SplitQuestions(questionText);
    if |questions| == 1 {
      var record := AnalyzeOne(questions[0], t, query);
      SingleIsQuestionResult(questions[0], query(questions[0]), t);
      return Single(record);
    }
    var results := BuildBatch(questions, t, query);
    return Batch(results);
  }
}
