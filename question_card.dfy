/**
 * The verdict a question card shows: `deriveVerdict` of QuestionCard.jsx,
 * a chain of early returns over one analysis record.
 */
module QuestionCard {
  import opened Wrappers
  import opened Records

  datatype Verdict = In | Borderline | Out

  /** The similarity at or above which a gated, non-"YES" record is borderline. */
  const BorderlineScore: real := 0.6

  /** `deriveVerdict`: out unless the gate passed; in on an exact "YES"; otherwise decided by the score. */
  function DeriveVerdict(q: AnalysisRecord): (v: Verdict)
    ensures !Truthy(q.gatekeeperPassed) ==> v == Out
    ensures v == In <==> Truthy(q.gatekeeperPassed) && q.llmDecision == Some("YES")
    ensures v == Borderline <==>
      Truthy(q.gatekeeperPassed) && q.llmDecision != Some("YES") && ScoreAtLeast(q.similarityScore, BorderlineScore)
    ensures v == Out <==>
      !Truthy(q.gatekeeperPassed) ||
      (q.llmDecision != Some("YES") && !ScoreAtLeast(q.similarityScore, BorderlineScore))
  {
    if !Truthy(q.gatekeeperPassed) then Out
    else if q.llmDecision == Some("YES") then In
    else if ScoreAtLeast(q.similarityScore, BorderlineScore) then Borderline
    else Out
  }
}
