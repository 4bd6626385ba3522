/**
 * The verdict counts of BatchSummary.jsx: one pass over the batch that
 * increments one of three counters per record. Its per-record rule is not
 * the question card's: a gated record without an exact "YES" is always
 * borderline here, whatever its score.
 */
module BatchSummary {
  import opened Wrappers
  import opened Records
  import opened QuestionCard

  datatype Stats = Stats(inCount: nat, borderline: nat, out: nat)

  /** The rule the summary loop applies to one record. */
  function SummaryVerdict(q: AnalysisRecord): (v: Verdict)
    ensures !Truthy(q.gatekeeperPassed) ==> v == Out
    ensures v == In <==> Truthy(q.gatekeeperPassed) && q.llmDecision == Some("YES")
    ensures v == Borderline <==> Truthy(q.gatekeeperPassed) && q.llmDecision != Some("YES")
  {
    if !Truthy(q.gatekeeperPassed) then Out
    else if q.llmDecision == Some("YES") then In
    else Borderline
  }

  /** Which of the two frontend rules classifies a record. */
  datatype Rule = CardRule | SummaryRule

  function Classify(rule: Rule, q: AnalysisRecord): Verdict
  {
    match rule
    case CardRule => DeriveVerdict(q)
    case SummaryRule => SummaryVerdict(q)
  }

  /** How many records of `qs` the rule classifies as `v`. */
  function Count(qs: seq<AnalysisRecord>, rule: Rule, v: Verdict): nat
  {
    if qs == [] then 0
    else Count(qs[..|qs| - 1], rule, v) + (if Classify(rule, qs[|qs| - 1]) == v then 1 else 0)
  }

  /** The three counts of a batch under one rule. */
  function Tally(qs: seq<AnalysisRecord>, rule: Rule): Stats
  {
    Stats(Count(qs, rule, In), Count(qs, rule, Borderline), Count(qs, rule, Out))
  }

  /** The `stats` loop of BatchSummary.jsx. */
  method Summarize(questions: seq<AnalysisRecord>) returns (stats: Stats)
    ensures stats == Tally(questions, SummaryRule)
    ensures stats.inCount + stats.borderline + stats.out == |questions|
    ensures questions == [] ==> stats == Stats(0, 0, 0)
  {
    stats := Stats(0, 0, 0);
    var i := 0;
    while i < |questions|
      invariant 0 <= i <= |questions|
      invariant stats == Tally(questions[..i], SummaryRule)
    {
      var q := questions[i];
      if !Truthy(q.gatekeeperPassed) {
        stats := stats.(out := stats.out + 1);
      } else if q.llmDecision == Some("YES") {
        stats := stats.(inCount := stats.inCount + 1);
      } else {
        stats := stats.(borderline := stats.borderline + 1);
      }
      assert questions[..i + 1][..i] == questions[..i];
      i := i + 1;
    }
    assert questions[..i] == questions;
    CountsAddUp(questions, SummaryRule);
  }

  /** Every record lands in exactly one counter. */
  lemma {:induction false} CountsAddUp(qs: seq<AnalysisRecord>, rule: Rule)
    ensures Count(qs, rule, In) + Count(qs, rule, Borderline) + Count(qs, rule, Out) == |qs|
  {
    if qs != [] {
      CountsAddUp(qs[..|qs| - 1], rule);
    }
  }

  /** On one record the two rules agree, except that the summary lifts a card's `out` to borderline. */
  lemma SummaryLiftsOnlyOutToBorderline(q: AnalysisRecord)
    ensures SummaryVerdict(q) == DeriveVerdict(q) ||
            (SummaryVerdict(q) == Borderline && DeriveVerdict(q) == Out)
    ensures SummaryVerdict(q) != DeriveVerdict(q) <==>
            Truthy(q.gatekeeperPassed) && q.llmDecision != Some("YES") &&
            !ScoreAtLeast(q.similarityScore, BorderlineScore)
  {
  }

  /**
   * Against the question cards of the same batch: the `in` counts are equal,
   * the summary's `borderline` count is at least the cards' and its `out`
   * count at most, by the same amount.
   */
  lemma {:induction false} SummaryVersusCards(qs: seq<AnalysisRecord>)
    ensures Count(qs, SummaryRule, In) == Count(qs, CardRule, In)
    ensures Count(qs, SummaryRule, Borderline) >= Count(qs, CardRule, Borderline)
    ensures Count(qs, SummaryRule, Out) <= Count(qs, CardRule, Out)
    ensures Count(qs, SummaryRule, Borderline) - Count(qs, CardRule, Borderline) ==
            Count(qs, CardRule, Out) - Count(qs, SummaryRule, Out)
  {
    if qs != [] {
      SummaryVersusCards(qs[..|qs| - 1]);
      SummaryLiftsOnlyOutToBorderline(qs[|qs| - 1]);
    }
  }

  /** When every gated record carries "YES", the two rules give the same counts. */
  lemma {:induction false} RulesAgreeWhenGatedMeansYes(qs: seq<AnalysisRecord>)
    requires forall i :: 0 <= i < |qs| && Truthy(qs[i].gatekeeperPassed) ==> qs[i].llmDecision == Some("YES")
    ensures Tally(qs, SummaryRule) == Tally(qs, CardRule)
  {
    if qs != [] {
      RulesAgreeWhenGatedMeansYes(qs[..|qs| - 1]);
    }
  }

  lemma {:induction false} CountAppend(a: seq<AnalysisRecord>, b: seq<AnalysisRecord>, rule: Rule, v: Verdict)
    ensures Count(a + b, rule, v) == Count(a, rule, v) + Count(b, rule, v)
    decreases |b|
  {
    if b == [] {
      assert a + b == a;
    } else {
      assert (a + b)[..|a + b| - 1] == a + b[..|b| - 1];
      CountAppend(a, b[..|b| - 1], rule, v);
    }
  }

  /** Removing the record at `i` removes exactly its own contribution to each count. */
  lemma CountRemoveAt(b: seq<AnalysisRecord>, i: nat, rule: Rule, v: Verdict)
    requires i < |b|
    ensures Count(b, rule, v) ==
            Count(b[..i] + b[i + 1..], rule, v) + (if Classify(rule, b[i]) == v then 1 else 0)
  {
    assert b == b[..i] + [b[i]] + b[i + 1..];
    CountAppend(b[..i], [b[i]], rule, v);
    CountAppend(b[..i] + [b[i]], b[i + 1..], rule, v);
    CountAppend(b[..i], b[i + 1..], rule, v);
  }

  /** Removing one occurrence of the same record from two permutations leaves two permutations. */
  lemma RemoveFromPermutation(a: seq<AnalysisRecord>, b: seq<AnalysisRecord>, i: nat)
    requires multiset(a) == multiset(b) && a != []
    requires i < |b| && b[i] == a[|a| - 1]
    ensures multiset(a[..|a| - 1]) == multiset(b[..i] + b[i + 1..])
  {
    var x := a[|a| - 1];
    assert a == a[..|a| - 1] + [x];
    assert b == b[..i] + [x] + b[i + 1..];
    calc {
      multiset(b[..i] + b[i + 1..]);
      multiset(b[..i]) + multiset(b[i + 1..]);
      multiset(b) - multiset{x};
      multiset(a) - multiset{x};
      multiset(a[..|a| - 1]);
    }
  }

  /** The counts do not depend on the order of the batch: any permutation gives the same counts. */
  lemma {:induction false} CountsIgnoreOrder(a: seq<AnalysisRecord>, b: seq<AnalysisRecord>, rule: Rule)
    requires multiset(a) == multiset(b)
    ensures Tally(a, rule) == Tally(b, rule)
    decreases |a|
  {
    if a == [] {
      assert |b| == |multiset(b)| == 0;
    } else {
      var x := a[|a| - 1];
      assert x in multiset(a);
      var i :| 0 <= i < |b| && b[i] == x;
      RemoveFromPermutation(a, b, i);
      CountsIgnoreOrder(a[..|a| - 1], b[..i] + b[i + 1..], rule);
      CountRemoveAt(b, i, rule, In);
      CountRemoveAt(b, i, rule, Borderline);
      CountRemoveAt(b, i, rule, Out);
    }
  }
}
