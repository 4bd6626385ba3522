/**
 * `validate_question` of backend/validators/syllabus_validator.py: a
 * similarity gate, then a decision tree on the kind of question and on
 * whether its core terms occur in the retrieved chunks; only application
 * questions go to the language model. The model, together with the prompt
 * built for it, is the parameter `askLlm`, from the question and the
 * chunks to the reply text.
 */
module SyllabusValidator {
  import opened Wrappers
  import opened Text
  import opened Records

  // ---------------------------------------------------------------------
  // Kind of question
  // ---------------------------------------------------------------------

  datatype QuestionType = Application | Definition | Unknown

  const ApplicationMarkers: seq<string> := [
    "case study", "scenario", "analyze", "how would you",
    "design", "implement", "evaluate", "justify", "compare"
  ]

  const DefinitionMarkers: seq<string> := [
    "what is", "define", "explain", "describe",
    "short note", "meaning of", "overview of"
  ]

  /** `any(p in q for p in markers)`. */
  predicate AnyIn(q: string, markers: seq<string>)
  {
    exists i :: 0 <= i < |markers| && Contains(q, markers[i])
  }

  /** `detect_question_type`: the markers are looked for in the lower-cased question. */
  function DetectQuestionType(question: string): QuestionType
  {
    var q := Lower(question);
    if AnyIn(q, ApplicationMarkers) then Application
    else if AnyIn(q, DefinitionMarkers) then Definition
    else Unknown
  }

  /**
   * The kind of a question: application when it holds an application
   * marker (also when it holds a definition marker), else definition when
   * it holds a definition marker, else unknown; case does not matter.
   */
  lemma QuestionTypeCases(question: string)
    ensures DetectQuestionType(question) == Application <==> AnyIn(Lower(question), ApplicationMarkers)
    ensures DetectQuestionType(question) == Definition <==>
      !AnyIn(Lower(question), ApplicationMarkers) && AnyIn(Lower(question), DefinitionMarkers)
    ensures DetectQuestionType(question) == Unknown <==>
      !AnyIn(Lower(question), ApplicationMarkers) && !AnyIn(Lower(question), DefinitionMarkers)
    ensures DetectQuestionType(Lower(question)) == DetectQuestionType(question)
  {
    LowerIdempotent(question);
  }

  // ---------------------------------------------------------------------
  // Core terms
  // ---------------------------------------------------------------------

  const CoreStopwords: set<string> := {
    "what", "is", "the", "of", "and", "in", "to",
    "explain", "define", "describe", "how"
  }

  /** `[t for t in tokens if t not in stopwords]`. */
  function NonStop(tokens: seq<string>): seq<string>
  {
    if tokens == [] then []
    else NonStop(tokens[..|tokens| - 1]) + (if tokens[|tokens| - 1] in CoreStopwords then [] else [tokens[|tokens| - 1]])
  }

  /** A token is kept exactly when it is not a stopword. */
  lemma {:induction false} NonStopExact(tokens: seq<string>, t: string)
    ensures t in NonStop(tokens) <==> t in tokens && t !in CoreStopwords
  {
    if tokens != [] {
      var init := tokens[..|tokens| - 1];
      NonStopExact(init, t);
      assert tokens == init + [tokens[|tokens| - 1]];
    }
  }

  /** The tokens of `re.findall(r"[a-zA-Z]+", question.lower())`, without stopwords. */
  function CoreCandidates(question: string): seq<string>
  {
    NonStop(Runs(Lower(question), AsciiLetter))
  }

  /** `extract_core_terms`: the first four non-stopword tokens. */
  function ExtractCoreTerms(question: string): seq<string>
  {
    var kept := CoreCandidates(question);
    if |kept| <= 4 then kept else kept[..4]
  }

  /** Every character of a maximal letter run of a lower-cased text is a lower-case letter. */
  lemma RunOfLowerIsLower(s: string, a: int, b: int)
    requires MaximalRun(Lower(s), a, b, AsciiLetter)
    ensures forall m :: 0 <= m < b - a ==> IsLower(Lower(s)[a..b][m])
  {
    forall m | 0 <= m < b - a
      ensures IsLower(Lower(s)[a..b][m])
    {
      assert Lower(s)[a..b][m] == Lower(s)[a + m] == LowerChar(s[a + m]);
    }
  }

  /**
   * The core terms are at most four, in order of appearance: the first
   * non-stopword tokens of the question. Each is a maximal run of letters
   * of the lower-cased question, so a non-empty word of lower-case letters.
   */
  lemma CoreTermsShape(question: string)
    ensures var terms := ExtractCoreTerms(question);
      && |terms| == (if |CoreCandidates(question)| < 4 then |CoreCandidates(question)| else 4)
      && terms == CoreCandidates(question)[..|terms|]
    ensures forall t :: t in ExtractCoreTerms(question) ==>
      && t !in CoreStopwords
      && t != []
      && (forall m :: 0 <= m < |t| ==> IsLower(t[m]))
      && exists a, b :: MaximalRun(Lower(question), a, b, AsciiLetter) && Lower(question)[a..b] == t
  {
    var terms := ExtractCoreTerms(question);
    var kept := CoreCandidates(question);
    assert terms == kept[..|terms|];
    forall t | t in terms
      ensures t !in CoreStopwords && t != []
      ensures forall m :: 0 <= m < |t| ==> IsLower(t[m])
      ensures exists a, b :: MaximalRun(Lower(question), a, b, AsciiLetter) && Lower(question)[a..b] == t
    {
      assert t in kept;
      NonStopExact(Runs(Lower(question), AsciiLetter), t);
      RunsCharacterization(Lower(question), AsciiLetter, t);
      var a, b :| MaximalRun(Lower(question), a, b, AsciiLetter) && Lower(question)[a..b] == t;
      RunOfLowerIsLower(question, a, b);
    }
  }

  // ---------------------------------------------------------------------
  // Topic presence
  // ---------------------------------------------------------------------

  /** `" ".join(c["text"].lower() for c in chunks)`. */
  function SyllabusText(chunks: seq<TopChunk>): string
  {
    Join(seq(|chunks|, i requires 0 <= i < |chunks| => Lower(chunks[i].text)), " ")
  }

  /** `topic_present_in_syllabus`: some core term is a substring of the joined chunk text. */
  predicate TopicPresent(coreTerms: seq<string>, chunks: seq<TopChunk>)
  {
    exists i :: 0 <= i < |coreTerms| && Contains(SyllabusText(chunks), coreTerms[i])
  }

  /** With non-empty terms, a topic can only be present in a non-empty list of chunks. */
  lemma TopicNeedsChunks(coreTerms: seq<string>, chunks: seq<TopChunk>)
    requires forall i :: 0 <= i < |coreTerms| ==> coreTerms[i] != []
    requires TopicPresent(coreTerms, chunks)
    ensures chunks != []
  {
    if chunks == [] {
      assert SyllabusText(chunks) == "";
      var i :| 0 <= i < |coreTerms| && Contains(SyllabusText(chunks), coreTerms[i]);
    }
  }

  /** The core terms of any question are non-empty, so the first chunk exists when a topic is present. */
  lemma CoreTermsNotEmpty(question: string)
    ensures forall i :: 0 <= i < |ExtractCoreTerms(question)| ==> ExtractCoreTerms(question)[i] != []
  {
    var terms := ExtractCoreTerms(question);
    forall i | 0 <= i < |terms|
      ensures terms[i] != []
    {
      var t := terms[i];
      assert t in CoreCandidates(question);
      NonStopExact(Runs(Lower(question), AsciiLetter), t);
    }
  }

  // ---------------------------------------------------------------------
  // The language model's reply to an application question
  // ---------------------------------------------------------------------

  /** A line whose upper-case form starts with a tag ending in a colon holds that colon. */
  lemma TagColon(line: string, tag: string)
    requires |tag| > 0 && tag[|tag| - 1] == ':' && StartsWith(Upper(line), tag)
    ensures line[|tag| - 1] == ':'
  {
    assert Upper(line)[|tag| - 1] == Upper(line)[..|tag|][|tag| - 1];
  }

  /**
   * The value of a line tagged `tag` in the reply: the line's upper-case
   * form starts with the tag (leading whitespace is not skipped), and the
   * value is the text after the first colon, trimmed.
   */
  function TaggedValue(line: string, tag: string): Option<string>
    requires |tag| > 0 && tag[|tag| - 1] == ':'
  {
    if StartsWith(Upper(line), tag) then
      TagColon(line, tag);
      Some(Strip(AfterFirst(line, ':')))
    else None
  }

  /** The value of the last of `lines` tagged `tag`, if any line is. */
  function LastTagged(lines: seq<string>, tag: string): Option<string>
    requires |tag| > 0 && tag[|tag| - 1] == ':'
  {
    if lines == [] then None
    else
      var v := TaggedValue(lines[|lines| - 1], tag);
      if v.Some? then v else LastTagged(lines[..|lines| - 1], tag)
  }

  /** The answer of the validator: `llm_decision`, `llm_justification`, `llm_module`. */
  datatype Verdict = Verdict(decision: string, justification: string, moduleName: string)

  /**
   * One turn of the line loop of `llm_validate_application`: a DECISION
   * line sets the decision, otherwise a JUSTIFICATION line the
   * justification, otherwise a MODULE line the module.
   */
  function ReadReplyLine(v: Verdict, line: string): Verdict
  {
    var d := TaggedValue(line, "DECISION:");
    if d.Some? then v.(decision := d.value)
    else
      var j := TaggedValue(line, "JUSTIFICATION:");
      if j.Some? then v.(justification := j.value)
      else
        var m := TaggedValue(line, "MODULE:");
        if m.Some? then v.(moduleName := m.value) else v
  }

  /** The defaults of `llm_validate_application`. */
  const ReplyDefaults := Verdict("NO", "LLM could not validate.", "unknown")

  /** The fields after the loop has read `lines`. */
  function ReadReply(lines: seq<string>): Verdict
  {
    if lines == [] then ReplyDefaults
    else ReadReplyLine(ReadReply(lines[..|lines| - 1]), lines[|lines| - 1])
  }

  /** A line is tagged for one field at most. */
  lemma ReplyTagsExclusive(line: string)
    ensures TaggedValue(line, "DECISION:").Some? ==> TaggedValue(line, "JUSTIFICATION:").None?
    ensures TaggedValue(line, "DECISION:").Some? ==> TaggedValue(line, "MODULE:").None?
    ensures TaggedValue(line, "JUSTIFICATION:").Some? ==> TaggedValue(line, "MODULE:").None?
  {
    var u := Upper(line);
    PrefixesDiffer(u, "DECISION:", "JUSTIFICATION:");
    PrefixesDiffer(u, "DECISION:", "MODULE:");
    PrefixesDiffer(u, "JUSTIFICATION:", "MODULE:");
  }

  /** Each field holds the value of its last tagged line, or its default. */
  lemma {:induction false} ReadReplyLast(lines: seq<string>)
    ensures ReadReply(lines).decision == LastTagged(lines, "DECISION:").GetOr("NO")
    ensures ReadReply(lines).justification == LastTagged(lines, "JUSTIFICATION:").GetOr("LLM could not validate.")
    ensures ReadReply(lines).moduleName == LastTagged(lines, "MODULE:").GetOr("unknown")
  {
    if lines != [] {
      ReadReplyLast(lines[..|lines| - 1]);
      ReplyTagsExclusive(lines[|lines| - 1]);
    }
  }

  /**
   * The line loop of `llm_validate_application` over the reply `text`:
   * each field is the trimmed value of its last tagged line, or its
   * default; the decision is not checked against YES or NO.
   */
  method ParseApplicationReply(text: string) returns (result: Verdict)
    ensures result.decision == LastTagged(SplitLines(text), "DECISION:").GetOr("NO")
    ensures result.justification == LastTagged(SplitLines(text), "JUSTIFICATION:").GetOr("LLM could not validate.")
    ensures result.moduleName == LastTagged(SplitLines(text), "MODULE:").GetOr("unknown")
  {
    var decision := "NO";
    var justification := "LLM could not validate.";
    var moduleName := "unknown";
    var lines := SplitLines(text);
    for i := 0 to |lines|
      invariant Verdict(decision, justification, moduleName) == ReadReply(lines[..i])
    {
      assert lines[..i + 1][..i] == lines[..i];
      var line := lines[i];
      if StartsWith(Upper(line), "DECISION:") {
        TagColon(line, "DECISION:");
        decision := Strip(AfterFirst(line, ':'));
      } else if StartsWith(Upper(line), "JUSTIFICATION:") {
        TagColon(line, "JUSTIFICATION:");
        justification := Strip(AfterFirst(line, ':'));
      } else if StartsWith(Upper(line), "MODULE:") {
        TagColon(line, "MODULE:");
        moduleName := Strip(AfterFirst(line, ':'));
      }
    }
    assert lines[..|lines|] == lines;
    ReadReplyLast(lines);
    result := Verdict(decision, justification, moduleName);
  }

  // ---------------------------------------------------------------------
  // validate_question
  // ---------------------------------------------------------------------

  const GateJustification := "Question is not sufficiently similar to syllabus content."

  /** `top_chunks[0].get("module") or "unknown"`. */
  function FirstModule(chunks: seq<TopChunk>): string
    requires chunks != []
  {
    var m := chunks[0].moduleName;
    if m.Some? && m.value != "" then m.value else "unknown"
  }

  /** The decision tree of `validate_question` once the similarity gate has passed. */
  function ValidateGrounded(question: string, topChunks: seq<TopChunk>, askLlm: (string, seq<TopChunk>) -> string): Verdict
  {
    var qType := DetectQuestionType(question);
    var coreTerms := ExtractCoreTerms(question);
    var topicPresent := TopicPresent(coreTerms, topChunks);
    if qType == Definition then
      if topicPresent then
        CoreTermsNotEmpty(question);
        TopicNeedsChunks(coreTerms, topChunks);
        Verdict("YES", "The topic is explicitly listed in the syllabus.", FirstModule(topChunks))
      else
        Verdict("NO", "The topic is not mentioned in the syllabus.", "unknown")
    else if qType == Unknown && topicPresent then
      CoreTermsNotEmpty(question);
      TopicNeedsChunks(coreTerms, topChunks);
      Verdict("YES", "The question is grounded in syllabus topics.", FirstModule(topChunks))
    else if qType == Application then
      ReadReply(SplitLines(askLlm(question, topChunks)))
    else
      Verdict("NO", "Validator could not confidently ground the question in the syllabus.", "unknown")
  }

  /** `validate_question`: the similarity gate, then the decision tree. */
  function ValidateQuestion(
    question: string, topChunks: seq<TopChunk>, similarity: real, threshold: real,
    askLlm: (string, seq<TopChunk>) -> string): Verdict
  {
    if similarity < threshold then Verdict("NO", GateJustification, "unknown")
    else ValidateGrounded(question, topChunks, askLlm)
  }

  /** A similarity below the threshold gives NO with module "unknown", before any other check. */
  lemma GateFirst(
    question: string, topChunks: seq<TopChunk>, similarity: real, threshold: real,
    askLlm: (string, seq<TopChunk>) -> string)
    requires similarity < threshold
    ensures ValidateQuestion(question, topChunks, similarity, threshold, askLlm) == Verdict("NO", GateJustification, "unknown")
  {
  }

  /**
   * Past the gate, a definition question gets YES iff one of its core
   * terms occurs in the chunk text, and so does a question of unknown
   * kind; both get only YES or NO, with the module "unknown" on NO and
   * the first chunk's module (or "unknown") on YES.
   */
  lemma NonApplicationRules(question: string, topChunks: seq<TopChunk>, askLlm: (string, seq<TopChunk>) -> string)
    requires DetectQuestionType(question) != Application
    ensures var v := ValidateGrounded(question, topChunks, askLlm);
      && (v.decision == "YES" <==> TopicPresent(ExtractCoreTerms(question), topChunks))
      && (v.decision == "YES" || v.decision == "NO")
      && (v.decision == "NO" ==> v.moduleName == "unknown")
      && (v.decision == "YES" ==> topChunks != [] && v.moduleName == FirstModule(topChunks))
  {
    if TopicPresent(ExtractCoreTerms(question), topChunks) {
      CoreTermsNotEmpty(question);
      TopicNeedsChunks(ExtractCoreTerms(question), topChunks);
    }
  }

  /**
   * Past the gate, an application question gets the trimmed text of the
   * reply's last DECISION line (default NO), which need not be YES or NO,
   * and the reply's last JUSTIFICATION and MODULE values.
   */
  lemma ApplicationRule(question: string, topChunks: seq<TopChunk>, askLlm: (string, seq<TopChunk>) -> string)
    requires DetectQuestionType(question) == Application
    ensures var lines := SplitLines(askLlm(question, topChunks));
      var v := ValidateGrounded(question, topChunks, askLlm);
      && v.decision == LastTagged(lines, "DECISION:").GetOr("NO")
      && v.justification == LastTagged(lines, "JUSTIFICATION:").GetOr("LLM could not validate.")
      && v.moduleName == LastTagged(lines, "MODULE:").GetOr("unknown")
  {
    ReadReplyLast(SplitLines(askLlm(question, topChunks)));
  }
}
