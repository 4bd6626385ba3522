/**
 * `analyze_question` of backend/services/question_analyzer.py: the
 * similarity gate in front of the syllabus validator, which is the
 * parameter `validate`.
 */
module QuestionAnalyzer {
  import opened Wrappers
  import opened Records
  import opened SyllabusValidator

  /** The dictionary `analyze_question` returns; `llm` is `None` when the gate fails. */
  datatype Analysis = Analysis(isInSyllabus: bool, gatekeeperPassed: bool, reason: string, llm: Option<Verdict>)

  /** The validator `analyze_question` calls: question, chunks, similarity and threshold to its answer. */
  type Validator = (string, seq<TopChunk>, real, real) -> Verdict

  /**
   * `analyze_question`: below the threshold the question is out without
   * asking the validator; otherwise it is in iff the validator says
   * exactly "YES", and the reason is the validator's justification.
   */
  function AnalyzeQuestion(question: string, similarity: real, threshold: real, topChunks: seq<TopChunk>, validate: Validator)
    : (a: Analysis)
    ensures a.gatekeeperPassed <==> similarity >= threshold
    ensures a.llm.Some? <==> a.gatekeeperPassed
    ensures a.isInSyllabus <==> a.gatekeeperPassed && a.llm.value.decision == "YES"
    ensures a.gatekeeperPassed ==>
      a.llm == Some(validate(question, topChunks, similarity, threshold)) && a.reason == a.llm.value.justification
  {
    var gatekeeperPassed := similarity >= threshold;
    if !gatekeeperPassed then
      Analysis(false, false, "Low semantic similarity to syllabus.", None)
    else
      var llmRes := validate(question, topChunks, similarity, threshold);
      Analysis(llmRes.decision == "YES", true, llmRes.justification, Some(llmRes))
  }

  /**
   * With `validate_question` as the validator, its own similarity gate is
   * never taken: the analyser only calls it when the gate has passed, so
   * the answer is that of the decision tree after the gate.
   */
  lemma ValidatorGateUnreachable(
    question: string, similarity: real, threshold: real, topChunks: seq<TopChunk>,
    askLlm: (string, seq<TopChunk>) -> string)
    ensures var a := AnalyzeQuestion(question, similarity, threshold, topChunks,
        (q, c, s, t) => ValidateQuestion(q, c, s, t, askLlm));
      a.llm.Some? ==> a.llm.value == ValidateGrounded(question, topChunks, askLlm)
  {
  }

  /**
   * With `validate_question` as the validator, a question of a kind other
   * than application is in exactly when the gate passes and one of its
   * core terms occurs in the chunk text.
   */
  lemma InSyllabusWithoutLlm(
    question: string, similarity: real, threshold: real, topChunks: seq<TopChunk>,
    askLlm: (string, seq<TopChunk>) -> string)
    requires DetectQuestionType(question) != Application
    ensures AnalyzeQuestion(question, similarity, threshold, topChunks,
        (q, c, s, t) => ValidateQuestion(q, c, s, t, askLlm)).isInSyllabus
      <==> similarity >= threshold && TopicPresent(ExtractCoreTerms(question), topChunks)
  {
    NonApplicationRules(question, topChunks, askLlm);
  }
}
