/**
 * The evidence highlighter of AnalysisResultPanel.jsx (`highlightOverlap`):
 * the passage is cut into alternating word and whitespace tokens, and a
 * token is marked when its cleaned form is one of the question's keywords.
 * The rendered spans are modelled as segments `(text, matched)`.
 */
module EvidenceHighlighter {
  import opened Text
  import opened Records

  /** The fixed stopword list of the panel. */
  const Stopwords: set<string> := {
    "the", "is", "are", "a", "an", "of", "in", "on", "to", "and",
    "or", "for", "with", "by", "as", "at", "from", "that", "this", "these",
    "those", "be", "was", "were", "it", "its", "into", "their", "there", "then"
  }

  datatype Segment = Segment(text: string, matched: bool)

  /**
   * The keyword set: the lower-cased question split on runs of characters
   * outside [a-z0-9], without the empty fragments and the stopwords. The
   * non-empty fragments of that split are exactly the maximal [a-z0-9] runs.
   */
  function Keywords(question: string): set<string>
  {
    set w | w in Runs(Lower(question), LowerAlnum) && w !in Stopwords
  }

  /**
   * Word runs without whitespace (even positions, empty only at either
   * end) alternating with non-empty whitespace runs (odd positions). With
   * no empty word between two whitespace tokens, every whitespace token is
   * a maximal run.
   */
  predicate TokensAlternate(tokens: seq<string>)
  {
    |tokens| % 2 == 1 &&
    forall k :: 0 <= k < |tokens| ==>
      if k % 2 == 1 then tokens[k] != [] && AllIn(tokens[k], JsSpace)
      else NoneIn(tokens[k], JsSpace) && (0 < k < |tokens| - 1 ==> tokens[k] != [])
  }

  /**
   * `text.split(/(\s+)/)`: the separator is captured, so the tokens
   * alternate between words and maximal whitespace runs.
   */
  function SplitKeepingSpaces(s: string): (tokens: seq<string>)
    ensures TokensAlternate(tokens)
    decreases |s|
  {
    var a := RunEnd(s, 0, Not(JsSpace));
    WordRun(s, a);
    if a == |s| then [s]
    else
      var b := RunEnd(s, a, JsSpace);
      SpaceRun(s, a, b);
      var rest := SplitKeepingSpaces(s[b..]);
      TokensCons(s[..a], s[a..b], rest);
      [s[..a], s[a..b]] + rest
  }

  lemma WordRun(s: string, a: nat)
    requires a == RunEnd(s, 0, Not(JsSpace))
    ensures NoneIn(s[..a], JsSpace)
    ensures a == |s| ==> NoneIn(s, JsSpace)
  {
    RunEndSpan(s, 0, Not(JsSpace));
  }

  lemma SpaceRun(s: string, a: nat, b: nat)
    requires a < |s| && a == RunEnd(s, 0, Not(JsSpace)) && b == RunEnd(s, a, JsSpace)
    ensures s[a..b] != [] && AllIn(s[a..b], JsSpace)
  {
    RunEndSpan(s, a, JsSpace);
  }

  lemma TokensCons(x: string, y: string, rest: seq<string>)
    requires NoneIn(x, JsSpace) && y != [] && AllIn(y, JsSpace) && TokensAlternate(rest)
    requires |rest| == 1 || rest[0] != []
    ensures TokensAlternate([x, y] + rest)
  {
    var t := [x, y] + rest;
    forall k | 2 <= k < |t|
      ensures t[k] == rest[k - 2] && k % 2 == (k - 2) % 2
    {
    }
  }

  /** The comparison key of a token: lower-cased, every character outside [a-z0-9] deleted. */
  function Clean(token: string): string
  {
    KeepClass(Lower(token), LowerAlnum)
  }

  predicate Highlighted(token: string, keys: set<string>)
  {
    var c := Clean(token);
    c != [] && c in keys
  }

  /** `highlightOverlap(question, text)`. */
  function HighlightOverlap(question: string, passage: string): (r: seq<Segment>)
    ensures question == [] || passage == [] ==> r == [Segment(passage, false)]
    ensures question != [] && passage != [] ==>
      |r| == |SplitKeepingSpaces(passage)| &&
      forall k :: 0 <= k < |r| ==>
        r[k].text == SplitKeepingSpaces(passage)[k] &&
        (r[k].matched <==> Clean(r[k].text) != [] && Clean(r[k].text) in Keywords(question))
  {
    if question == [] || passage == [] then [Segment(passage, false)]
    else
      var keys := Keywords(question);
      var tokens := SplitKeepingSpaces(passage);
      seq(|tokens|, k requires 0 <= k < |tokens| => Segment(tokens[k], Highlighted(tokens[k], keys)))
  }

  /** The texts of the segments, concatenated in order. */
  function Texts(r: seq<Segment>): string
  {
    if r == [] then [] else r[0].text + Texts(r[1..])
  }

  // ---------------------------------------------------------------------
  // Properties
  // ---------------------------------------------------------------------

  lemma {:induction false} SplitKeepingSpacesReconstructs(s: string)
    ensures Concat(SplitKeepingSpaces(s)) == s
    decreases |s|
  {
    var a := RunEnd(s, 0, Not(JsSpace));
    if a < |s| {
      var b := RunEnd(s, a, JsSpace);
      var t := s[b..];
      var rest := SplitKeepingSpaces(t);
      assert SplitKeepingSpaces(s) == [s[..a], s[a..b]] + rest;
      SplitKeepingSpacesReconstructs(t);
      ConcatPair(s[..a], s[a..b], rest);
      assert s == s[..a] + s[a..b] + t;
    } else {
      assert SplitKeepingSpaces(s) == [s];
      assert Concat([s]) == s + Concat([]);
    }
  }

  lemma {:induction false} TextsAreTokens(r: seq<Segment>, tokens: seq<string>)
    requires |r| == |tokens|
    requires forall k :: 0 <= k < |r| ==> r[k].text == tokens[k]
    ensures Texts(r) == Concat(tokens)
  {
    if r != [] {
      TextsAreTokens(r[1..], tokens[1..]);
    }
  }

  /** Concatenating the segment texts in order gives back the passage exactly. */
  lemma HighlightReconstructs(question: string, passage: string)
    ensures Texts(HighlightOverlap(question, passage)) == passage
  {
    var r := HighlightOverlap(question, passage);
    if question == [] || passage == [] {
      assert r[1..] == [];
    } else {
      SplitKeepingSpacesReconstructs(passage);
      TextsAreTokens(r, SplitKeepingSpaces(passage));
    }
  }

  /**
   * A keyword is a non-stopword that is a whole maximal [a-z0-9] run of the
   * lower-cased question, and every such run is a keyword.
   */
  lemma KeywordMembership(question: string, w: string)
    ensures w in Keywords(question) <==>
      w !in Stopwords &&
      exists a, b :: MaximalRun(Lower(question), a, b, LowerAlnum) && Lower(question)[a..b] == w
  {
    RunsCharacterization(Lower(question), LowerAlnum, w);
  }

  /**
   * Whitespace tokens, tokens with nothing left after cleaning (pure
   * punctuation) and tokens that clean to a stopword are never highlighted;
   * a highlighted segment is a word token at an even position.
   */
  lemma NeverHighlighted(question: string, passage: string, k: nat)
    requires k < |HighlightOverlap(question, passage)|
    ensures var s := HighlightOverlap(question, passage)[k];
      (AllIn(s.text, JsSpace) || Clean(s.text) == [] || Clean(s.text) in Stopwords) ==> !s.matched
    ensures HighlightOverlap(question, passage)[k].matched ==>
      k % 2 == 0 && NoneIn(HighlightOverlap(question, passage)[k].text, JsSpace)
  {
    var s := HighlightOverlap(question, passage)[k];
    if AllIn(s.text, JsSpace) {
      KeepClassNothing(Lower(s.text), LowerAlnum);
    }
  }

  lemma {:induction false} RunEndIgnoresCase(s: string, i: nat, k: CharClass)
    requires i <= |s| && (k == JsSpace || k == Not(JsSpace))
    ensures RunEnd(Lower(s), i, k) == RunEnd(s, i, k)
    decreases |s| - i
  {
    if i < |s| && In(s[i], k) {
      RunEndIgnoresCase(s, i + 1, k);
    }
  }

  /** Lower-casing a slice is slicing the lower-cased string. */
  lemma LowerSlices(s: string, a: nat, b: nat)
    requires a <= b <= |s|
    ensures Lower(s)[..a] == Lower(s[..a])
    ensures Lower(s)[a..b] == Lower(s[a..b])
    ensures Lower(s)[b..] == Lower(s[b..])
  {
  }

  /** `xs` is `ys` with every string lower-cased. */
  predicate LowerOf(xs: seq<string>, ys: seq<string>)
  {
    |xs| == |ys| && forall k :: 0 <= k < |xs| ==> xs[k] == Lower(ys[k])
  }

  lemma LowerOfCons(x: string, y: string, xs: seq<string>, ys: seq<string>)
    requires LowerOf(xs, ys)
    ensures LowerOf([Lower(x), Lower(y)] + xs, [x, y] + ys)
  {
    var l, r := [Lower(x), Lower(y)] + xs, [x, y] + ys;
    forall k | 2 <= k < |l|
      ensures l[k] == Lower(r[k])
    {
      var j := k - 2;
      assert l[k] == xs[j] && r[k] == ys[j];
    }
  }

  /** Lower-casing the passage lower-cases each token and changes nothing else in the split. */
  lemma {:induction false} SplitCommutesWithLower(s: string)
    ensures |SplitKeepingSpaces(Lower(s))| == |SplitKeepingSpaces(s)|
    ensures forall k :: 0 <= k < |SplitKeepingSpaces(s)| ==>
      SplitKeepingSpaces(Lower(s))[k] == Lower(SplitKeepingSpaces(s)[k])
    decreases |s|
  {
    var a := RunEnd(s, 0, Not(JsSpace));
    RunEndIgnoresCase(s, 0, Not(JsSpace));
    if a < |s| {
      var b := RunEnd(s, a, JsSpace);
      RunEndIgnoresCase(s, a, JsSpace);
      var t := s[b..];
      LowerSlices(s, a, b);
      SplitCommutesWithLower(t);
      LowerOfCons(s[..a], s[a..b], SplitKeepingSpaces(Lower(t)), SplitKeepingSpaces(t));
    }
  }

  /**
   * Matching ignores case on both sides: questions and passages that agree
   * once lower-cased give segments with the same flags, whose texts differ
   * at most in case (each text is still the passage's own token).
   */
  lemma MatchingIgnoresCase(q1: string, q2: string, p1: string, p2: string)
    requires Lower(q1) == Lower(q2) && Lower(p1) == Lower(p2)
    ensures |HighlightOverlap(q1, p1)| == |HighlightOverlap(q2, p2)|
    ensures forall k :: 0 <= k < |HighlightOverlap(q1, p1)| ==>
      HighlightOverlap(q1, p1)[k].matched == HighlightOverlap(q2, p2)[k].matched &&
      Lower(HighlightOverlap(q1, p1)[k].text) == Lower(HighlightOverlap(q2, p2)[k].text)
  {
    assert |q1| == |Lower(q1)| && |p1| == |Lower(p1)|;
    if q1 != [] && p1 != [] {
      SplitCommutesWithLower(p1);
      SplitCommutesWithLower(p2);
    }
  }

  lemma ExampleQuestionRuns()
    ensures Runs("explain merge sort", LowerAlnum) == ["explain", "merge", "sort"]
  {
    var s := "explain merge sort";
    ExampleRunsFromMerge();
    RunEndExact(s, 0, 7, LowerAlnum);
    assert s[0..7] == "explain";
    assert RunsFrom(s, 7, LowerAlnum) == RunsFrom(s, 8, LowerAlnum);
  }

  lemma ExampleRunsFromMerge()
    ensures RunsFrom("explain merge sort", 8, LowerAlnum) == ["merge", "sort"]
  {
    var s := "explain merge sort";
    ExampleRunsFromSort();
    RunEndExact(s, 8, 13, LowerAlnum);
    assert s[8..13] == "merge";
    assert RunsFrom(s, 13, LowerAlnum) == RunsFrom(s, 14, LowerAlnum);
  }

  lemma ExampleRunsFromSort()
    ensures RunsFrom("explain merge sort", 14, LowerAlnum) == ["sort"]
  {
    var s := "explain merge sort";
    RunEndExact(s, 14, 18, LowerAlnum);
    assert s[14..18] == "sort";
  }

  lemma ExampleTokens()
    ensures SplitKeepingSpaces("MERGE-SORT") == ["MERGE-SORT"]
    ensures SplitKeepingSpaces("Sort.") == ["Sort."]
  {
    assert RunEnd("MERGE-SORT", 0, Not(JsSpace)) == 10;
    assert RunEnd("Sort.", 0, Not(JsSpace)) == 5;
  }

  lemma ExampleCleaningHyphen()
    ensures Clean("MERGE-SORT") == "mergesort"
  {
    ExampleLowerHyphen();
    ExampleKeepHyphen();
  }

  lemma ExampleLowerHyphen()
    ensures Lower("MERGE-SORT") == "merge-sort"
  {
  }

  lemma ExampleKeepHyphen()
    ensures KeepFrom("merge-sort", 0, LowerAlnum) == "mergesort"
  {
    var s := "merge-sort";
    ExampleKeepAfterHyphen();
    KeepFromRun(s, 0, 5, LowerAlnum);
    assert s[0..5] == "merge";
  }

  lemma ExampleKeepAfterHyphen()
    ensures KeepFrom("merge-sort", 5, LowerAlnum) == "sort"
  {
    var s := "merge-sort";
    KeepFromRun(s, 6, 10, LowerAlnum);
    assert s[6..10] == "sort";
  }

  lemma ExampleCleaningDot()
    ensures Clean("Sort.") == "sort"
  {
    var s := "sort.";
    assert Lower("Sort.") == s;
    KeepFromRun(s, 0, 4, LowerAlnum);
    assert s[0..4] == "sort";
  }

  /**
   * Interior punctuation is deleted, not split on: for the question "Explain
   * Merge Sort", in any casing, the token "MERGE-SORT" cleans to "mergesort",
   * which is not a keyword.
   */
  lemma HyphenatedTokenIsWhole(question: string)
    requires Lower(question) == "explain merge sort"
    ensures HighlightOverlap(question, "MERGE-SORT") == [Segment("MERGE-SORT", false)]
  {
    ExampleQuestionRuns();
    ExampleTokens();
    ExampleCleaningHyphen();
    assert !Highlighted("MERGE-SORT", Keywords(question));
  }

  /** Punctuation at the edge is deleted too: "Sort." is highlighted, and emitted with its capital and its dot. */
  lemma EdgePunctuationIgnored(question: string)
    requires Lower(question) == "explain merge sort"
    ensures HighlightOverlap(question, "Sort.") == [Segment("Sort.", true)]
  {
    ExampleSortIsKeyword(question);
    ExampleTokens();
    ExampleCleaningDot();
  }

  lemma ExampleSortIsKeyword(question: string)
    requires Lower(question) == "explain merge sort"
    ensures "sort" in Keywords(question)
  {
    ExampleQuestionRuns();
    var r: seq<string> := ["explain", "merge", "sort"];
    assert r[2] == "sort";
    SortIsNotAStopword();
    KeywordIntro(question, "sort");
  }

  lemma SortIsNotAStopword()
    ensures "sort" !in Stopwords
  {
  }

  lemma KeywordIntro(question: string, w: string)
    requires w in Runs(Lower(question), LowerAlnum) && w !in Stopwords
    ensures w in Keywords(question)
  {
  }

  /** The `questions` field of a result, as the panel inspects it. */
  datatype QuestionsField = Missing | ArrayOf(items: seq<AnalysisRecord>) | OtherValue

  /** `Array.isArray(result.questions)`: the batch layout is chosen iff the field is an array. */
  predicate IsBatch(questions: QuestionsField)
  {
    questions.ArrayOf?
  }
}
