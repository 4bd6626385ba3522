/**
 * The strength band of SimilarityBar.jsx: a colour and a label chosen by
 * two thresholds on the similarity score.
 */
module SimilarityBar {
  import opened Wrappers
  import opened Records
  import QuestionCard

  datatype Band = Weak | Moderate | Strong
  {
    function Label(): string
    {
      match this
      case Weak => "Weak"
      case Moderate => "Moderate"
      case Strong => "Strong"
    }

    function Color(): string
    {
      match this
      case Weak => "bg-red-500"
      case Moderate => "bg-yellow-500"
      case Strong => "bg-green-500"
    }

    /** Position of the band in the order Weak < Moderate < Strong. */
    function Rank(): nat
    {
      match this
      case Weak => 0
      case Moderate => 1
      case Strong => 2
    }
  }

  const StrongScore: real := 0.8
  const ModerateScore: real := 0.6

  /** The band for a score; a missing score compares false and stays Weak. */
  function ScoreBand(score: Option<real>): (b: Band)
    ensures b == Strong <==> ScoreAtLeast(score, StrongScore)
    ensures b == Moderate <==> ScoreAtLeast(score, ModerateScore) && !ScoreAtLeast(score, StrongScore)
    ensures b == Weak <==> !ScoreAtLeast(score, ModerateScore)
  {
    if ScoreAtLeast(score, StrongScore) then Strong
    else if ScoreAtLeast(score, ModerateScore) then Moderate
    else Weak
  }

  /** A higher score never gets a lower band. */
  lemma BandMonotone(s1: real, s2: real)
    requires s1 <= s2
    ensures ScoreBand(Some(s1)).Rank() <= ScoreBand(Some(s2)).Rank()
  {
  }

  /** A record the question card calls borderline is drawn as Moderate or Strong, never Weak. */
  lemma BorderlineIsNotWeak(q: AnalysisRecord)
    requires QuestionCard.DeriveVerdict(q) == QuestionCard.Borderline
    ensures ScoreBand(q.similarityScore) != Weak
  {
  }
}
