# Syllabus question checker: decision logic and text algorithms

The system decides whether exam questions fall within a course syllabus.
The backend (Python) does the following:

- cuts syllabus text into chunks at its `Module/Unit/Chapter <n>` headers;
- splits a question paper into questions at its `Q<n>:` labels;
- looks each question up in a vector store, turns the distance of the best passage into a similarity and gates it against a threshold;
- builds one analysis record per question. On a passed gate the endpoint itself sets the decision to "YES", with a justification saying that the LLM validator is not yet integrated (backend/app.py, lines 207-212 and 263-265).

The backend also holds a rule-based validator, an LLM-backed validator and `analyze_question`, which decide whether a question that passed the gate is grounded in the syllabus. The endpoint does not call them yet; they are modelled as standalone code.

The frontend (JavaScript) reads the records back:

- a question card derives an `in` / `borderline` / `out` verdict;
- a batch summary counts verdicts with a different rule;
- a similarity bar picks a band;
- the analysis panel highlights the question's keywords in the retrieved passages;
- a few formatters produce labels and styles.

This project models those rules and algorithms in Dafny and proves what they promise.

| module | file | models |
|---|---|---|
| `Text` | text.dfy | Character classes, ASCII case mapping, `str.strip`, `str.splitlines`, prefix and substring tests, joins, and maximal runs of a class (what `re.findall` of `[class]+` returns). |
| `Records` | records.dfy | The JSON analysis record and its passages. An absent or `null` field is `None`. |
| `QuestionCard` | question_card.dfy | `deriveVerdict`. |
| `BatchSummary` | batch_summary.dfy | The counting loop of the summary, and how it relates to the card's rule. |
| `SimilarityBar` | similarity_bar.dfy | The score band. |
| `Formatters` | formatters.dfy | `truncateText`, the decision label and badge, and the metadata line. |
| `EvidenceHighlighter` | highlighter.dfy | `highlightOverlap`, with its output as `(text, matched)` segments. |
| `QuestionSplitter` | question_splitter.dfy | `split_questions`, including `re.split` on the label pattern. |
| `AnalyzeEndpoint` | analyze_endpoint.dfy | The `/analyze_question` endpoint after the request is read. The vector store is a function parameter. |
| `TextChunker` | text_chunker.dfy | `chunk_syllabus`, including `re.split` on a lookahead with a capturing group. |
| `LlmValidator` | llm_validator.dfy | `extract_topics_from_chunks`, `normalize_q` and `parse_llm_output`. |
| `SyllabusValidator` | syllabus_validator.dfy | Question kind, core terms, topic presence, the reply parser, and `validate_question`. The model call is a function parameter. |
| `QuestionAnalyzer` | question_analyzer.dfy | `analyze_question`, with the validator as a parameter. |

Where the source updates variables in a loop, the model is a method with that loop. Each such method is proved equal to a specification function, and the properties are lemmas about that function:

- the summary counters;
- the `top_chunks` and batch loops;
- the label loop of `split_questions`;
- the gathering loop of `chunk_syllabus`;
- the topic-set loops;
- both reply-parsing loops.

The highlighter cleans each token whole: it lower-cases the token and deletes every character outside `[a-z0-9]` (frontend/src/components/playground/AnalysisResultPanel.jsx, lines 48 and 57). So the passage token "MERGE-SORT" compares as "mergesort". For the question "Explain Merge Sort" that is not one of the keywords "explain", "merge" and "sort", and the token is not highlighted; see `EvidenceHighlighter.HyphenatedTokenIsWhole`.

The two frontend verdict rules are modelled as written and are not unified. Their relationship is proved instead, both in general and on the records the endpoint builds.

## Model

| member | source | states |
|---|---|---|
| QuestionCard.DeriveVerdict | frontend/src/components/common/QuestionCard.jsx:5-10 | A record whose gate flag is false or missing is out. Otherwise it is in iff `llm_decision` is exactly "YES", whatever the score. Otherwise it is borderline iff the score is at least 0.6, and out when the score is lower or missing. Exactly one verdict holds. |
| BatchSummary.SummaryVerdict | frontend/src/components/common/BatchSummary.jsx:5-7 | A failed or missing gate is out. A passed gate is in iff the decision is exactly "YES", and otherwise borderline, whatever the score. |
| BatchSummary.Summarize | frontend/src/components/common/BatchSummary.jsx:2-8 | The loop's counters are the tally of the batch under the summary rule. They add up to the number of questions, and an empty batch gives 0/0/0. |
| BatchSummary.CountsAddUp | frontend/src/components/common/BatchSummary.jsx:4-8 | Under either rule every record lands in exactly one counter. |
| BatchSummary.SummaryLiftsOnlyOutToBorderline | frontend/src/components/common/BatchSummary.jsx:7 | On one record the summary and the card agree, except that the summary says borderline where the card says out. That happens exactly for a passed gate without "YES" and a score below 0.6 or missing. |
| BatchSummary.SummaryVersusCards | frontend/src/components/common/BatchSummary.jsx:4-8 | Against the cards of the same batch, the `in` counts are equal. The summary's borderline count is at least the cards' and its out count at most, and they differ by the same amount. |
| BatchSummary.RulesAgreeWhenGatedMeansYes | frontend/src/components/common/BatchSummary.jsx:4-8 | When every gated record carries "YES", both rules give the same three counts. |
| BatchSummary.CountsIgnoreOrder | frontend/src/components/common/BatchSummary.jsx:4 | Any permutation of the batch gives the same counts. |
| SimilarityBar.ScoreBand | frontend/src/components/common/SimilarityBar.jsx:2-11 | Strong (green) iff the score is at least 0.8. Moderate (yellow) iff it is at least 0.6 and below 0.8. Weak (red) otherwise, including a missing score. |
| SimilarityBar.BandMonotone | frontend/src/components/common/SimilarityBar.jsx:2-11 | A higher score never gets a lower band. |
| SimilarityBar.BorderlineIsNotWeak | frontend/src/components/common/SimilarityBar.jsx:8 | A record the card calls borderline is drawn as Moderate or Strong. |
| SimilarityBar.Band.Label | frontend/src/components/common/SimilarityBar.jsx:3-11 | The label of a band, "Strong", "Moderate" or "Weak"; `ScoreBand` states which score gets which label. |
| SimilarityBar.Band.Color | frontend/src/components/common/SimilarityBar.jsx:3-11 | The colour class of a band, green, yellow or red; `ScoreBand` states which score gets which colour. |
| Formatters.TruncateText | frontend/src/utils/formatters.js:9-12 | The text is unchanged when it fits. Otherwise the result is its first `maxLength` characters followed by "...", of length `maxLength + 3`. A negative bound keeps nothing. |
| Formatters.TruncateTextDefault | frontend/src/utils/formatters.js:9-12 | With the default bound of 100, the result is at most 103 characters long, and a text of at most 100 characters is returned unchanged. |
| Formatters.DecisionBadgeClass | frontend/src/utils/formatters.js:14-18 | The green class iff the flag is truthy, the red class otherwise. |
| Formatters.DecisionLabel | frontend/src/utils/formatters.js:20-22 | "In Syllabus" iff the flag is truthy, "Out of Syllabus" otherwise. |
| Formatters.BadgeMatchesLabel | frontend/src/utils/formatters.js:14-22 | The badge is green exactly when the label reads "In Syllabus". |
| Formatters.FormatSyllabusMetadata | frontend/src/utils/formatters.js:5-7 | Department, program, "Sem " and semester, and subject name, joined by " - "; `FormatRoundTrip` recovers all four fields from the line when the first three hold no dash. |
| Formatters.FormatRoundTrip | frontend/src/utils/formatters.js:5-7 | The line "department - program - Sem semester - subject" gives back all four fields when the first three contain no dash. |
| EvidenceHighlighter.HighlightOverlap | frontend/src/components/playground/AnalysisResultPanel.jsx:43-67 | With an empty question or passage, the result is the passage as one unmarked segment. Otherwise there is one segment per token of the whitespace-keeping split, in order. A segment is marked iff its cleaned token is non-empty and a keyword. |
| EvidenceHighlighter.Keywords | frontend/src/components/playground/AnalysisResultPanel.jsx:46-51 | The keyword set of the question; `KeywordMembership` states its members: the non-stopword maximal `[a-z0-9]` runs of the lower-cased question. |
| EvidenceHighlighter.SplitKeepingSpaces | frontend/src/components/playground/AnalysisResultPanel.jsx:54 | There is an odd number of tokens. Tokens at even positions hold no whitespace and are non-empty except possibly the first and the last. Tokens at odd positions are non-empty whitespace runs, so each is a maximal run of the passage. |
| EvidenceHighlighter.SplitKeepingSpacesReconstructs | frontend/src/components/playground/AnalysisResultPanel.jsx:54 | The tokens concatenate back to the passage. |
| EvidenceHighlighter.HighlightReconstructs | frontend/src/components/playground/AnalysisResultPanel.jsx:54-66 | The segment texts, concatenated in order, are exactly the passage. |
| EvidenceHighlighter.KeywordMembership | frontend/src/components/playground/AnalysisResultPanel.jsx:46-51 | A word is a keyword iff it is not a stopword and is a whole maximal `[a-z0-9]` run of the lower-cased question. |
| EvidenceHighlighter.NeverHighlighted | frontend/src/components/playground/AnalysisResultPanel.jsx:46-58 | Whitespace tokens, pure-punctuation tokens and stopword tokens are never marked. A marked segment is a word token at an even position. |
| EvidenceHighlighter.MatchingIgnoresCase | frontend/src/components/playground/AnalysisResultPanel.jsx:47-58 | Questions and passages that agree once lower-cased give the same marks. Each segment keeps its own token's casing. |
| EvidenceHighlighter.SplitCommutesWithLower | frontend/src/components/playground/AnalysisResultPanel.jsx:54-57 | Splitting the lower-cased passage gives the lower-cased tokens. |
| EvidenceHighlighter.HyphenatedTokenIsWhole | frontend/src/components/playground/AnalysisResultPanel.jsx:48-58 | For the question "Explain Merge Sort" in any casing, the token "MERGE-SORT" cleans to "mergesort" and is not marked. |
| EvidenceHighlighter.EdgePunctuationIgnored | frontend/src/components/playground/AnalysisResultPanel.jsx:57-62 | For the same question, the token "Sort." is marked and emitted as written. |
| QuestionSplitter.LabelAt | backend/app.py:85 | A match of `Q\d+\s*:` starts with 'Q', ends with ':' and has at least 3 characters. |
| QuestionSplitter.LabelMatchesShape | backend/app.py:85 | The label scanner accepts exactly the strings of the shape 'Q', digits, whitespace, ':'. |
| QuestionSplitter.LabelSplitStructure | backend/app.py:85-86 | `re.split` with the captured label pattern alternates label-free text and whole labels. The parts concatenate back to the text. There is more than one part iff the text holds a label. |
| QuestionSplitter.LabelledBodiesAreBodies | backend/app.py:91-104 | The label loop's questions are the non-blank texts after the labels, stripped, in order. |
| QuestionSplitter.CollectLabelled | backend/app.py:86-106 | The loop over the parts, with its `current_label` / `current_text` state, returns exactly those bodies. |
| QuestionSplitter.SplitQuestions | backend/app.py:73-114 | Empty input gives no questions. In label mode the result is the labelled bodies, and text before the first label is dropped. Otherwise it is the non-blank stripped lines when there are several, else the stripped text. |
| QuestionSplitter.QuestionsOf | backend/app.py:73-114 | `split_questions`; `SplitQuestions` states its three modes and `QuestionsStripped` that every question is stripped. |
| QuestionSplitter.QuestionsStripped | backend/app.py:96-114 | Every question is stripped. An empty question occurs iff the input is non-empty but blank, and then the result is `[""]`. |
| AnalyzeEndpoint.OrDefault | backend/app.py:154-156 | `x or default` on a list field: the field when it is a non-empty list, the default otherwise. |
| AnalyzeEndpoint.Clamp01 | backend/app.py:168 | The result is in [0, 1]. It is the input when the input lies in [0, 1], otherwise the nearer bound. |
| AnalyzeEndpoint.SimilarityOfQuery | backend/app.py:158-168 | The similarity is in [0, 1]. It is 0 without distances or with a missing first distance, and otherwise `clamp(1 - d)` of the first distance. |
| AnalyzeEndpoint.ClampedSimilarityAntitone | backend/app.py:166-173 | A smaller distance never gives a smaller similarity. |
| AnalyzeEndpoint.ChunkOf | backend/app.py:171-181 | A passage keeps its text and its dict's module, and its similarity is in [0, 1]. A missing distance counts as 1.0 with similarity 0. |
| AnalyzeEndpoint.ChunksOfZip | backend/app.py:170 | There is one chunk per position of the shortest of the three lists, built from that position. |
| AnalyzeEndpoint.BuildTopChunks | backend/app.py:159-182 | The `top_chunks` loop returns exactly the zipped chunks. |
| AnalyzeEndpoint.SingleIsQuestionResult | backend/app.py:184-214 | The single-question branch builds the same record as the batch branch. |
| AnalyzeEndpoint.GateInvariant | backend/app.py:252-267 | `gatekeeper_passed` is exactly `similarity >= threshold`, and `is_in_syllabus` equals it. The decision ("YES") and the justification are present iff the gate passed. The reason says which. |
| AnalyzeEndpoint.GateMonotone | backend/app.py:184 | Lowering the threshold never fails a question that passed. |
| AnalyzeEndpoint.QuestionResult | backend/app.py:226-268 | The record of one question; `GateInvariant` states its gate, decision and reason, `VerdictOfQuestionResult` its verdict, and `SingleIsQuestionResult` that the single branch builds it too. |
| AnalyzeEndpoint.VerdictOfQuestionResult | backend/app.py:255-267 | On an endpoint record the card and the summary agree: in iff the gate passed, and never borderline. |
| AnalyzeEndpoint.BatchCountsAgree | backend/app.py:263 | On an endpoint batch the card rule and the summary rule give the same counts. |
| AnalyzeEndpoint.AnalyzeOne | backend/app.py:220-268 | One turn of the batch loop builds the record of its question. |
| AnalyzeEndpoint.BuildBatch | backend/app.py:217-268 | The batch loop returns one record per question, in order. |
| AnalyzeEndpoint.Analyze | backend/app.py:141-276 | The endpoint in text mode answers as `ResponseOf` describes. |
| AnalyzeEndpoint.ResponseOf | backend/app.py:141-276 | The response for a question field; `ResponseShape` states its single, batch and error shapes, and `Analyze` that the endpoint answers with it. |
| AnalyzeEndpoint.ResponseShape | backend/app.py:143-276 | A blank question is rejected. Exactly one split question gives the single shape. Any other count, 0 included, gives a batch with one record per question in split order. The analysis panel's `Array.isArray(result.questions)` test (AnalysisResultPanel.jsx line 80) holds exactly for the batch shape. |
| TextChunker.HeaderAt | backend/processors/text_chunker.py:4 | A header match ends with a digit, after the start. |
| TextChunker.HeadersExact | backend/processors/text_chunker.py:4-5 | The lookahead matches at a position iff a header (Module/Unit/Chapter, any case, whitespace, digit) starts there. |
| TextChunker.HeaderClear | backend/processors/text_chunker.py:4 | No header starts inside another one, up to its first digit. |
| TextChunker.LookaheadSplit | backend/processors/text_chunker.py:5 | The split has one piece per header plus one, and after each header's cut the keyword it captured: 2 × headers + 1 parts. |
| TextChunker.SplitPiece | backend/processors/text_chunker.py:5-10 | Part 2i is piece i, and `re.match` accepts it iff it follows a cut. |
| TextChunker.SplitKeyword | backend/processors/text_chunker.py:5-10 | Part 2i+1 is the keyword of header i, as written, and `re.match` rejects it. |
| TextChunker.GatherTurn | backend/processors/text_chunker.py:10-15 | One turn of the loop closes the gathered text on a matching part and otherwise appends the part after a space. |
| TextChunker.CollectChunks | backend/processors/text_chunker.py:8-18 | The loop over the split returns the stripped texts of all chunks. |
| TextChunker.GatheredAtEnd | backend/processors/text_chunker.py:17-18 | After the loop `temp` is never empty, so the last chunk is always appended. |
| TextChunker.ChunkSyllabus | backend/processors/text_chunker.py:3-20 | The result has one chunk per header plus a leading chunk, every chunk is stripped, and the `[text]` fallback is never taken. |
| TextChunker.ChunkOfText | backend/processors/text_chunker.py:9-18 | Chunk i is the strip of piece i (after a space when first), followed by a space and the keyword captured at header i. |
| TextChunker.ChunkCount | backend/processors/text_chunker.py:8-20 | There are headers + 1 chunks, all stripped. |
| TextChunker.NoHeaderOneChunk | backend/processors/text_chunker.py:8-20 | Text without a header is the one chunk `text.strip()`. |
| TextChunker.ChunkStartsWithHeader | backend/processors/text_chunker.py:10-13 | Every chunk after the first starts with its header: the keyword as written, whitespace and a digit. |
| TextChunker.ChunkEndsWithNextKeyword | backend/processors/text_chunker.py:4-15 | The capture-group quirk: every chunk but the last ends with the keyword of the header that follows it. |
| LlmValidator.LongOnesExact | backend/validators/llm_validator.py:42 | The `{4,}` filter keeps exactly the runs of length at least 4. |
| LlmValidator.ExtractTopics | backend/validators/llm_validator.py:33-48 | The nested loops build exactly the topic set of the chunks. |
| LlmValidator.TopicsExact | backend/validators/llm_validator.py:27-48 | A word is a topic iff it is not generic, has at least 4 letters and is a whole maximal ASCII-letter run of some lower-cased chunk text. |
| LlmValidator.ChunkTopicsExact | backend/validators/llm_validator.py:40-46 | The same, for one chunk. |
| LlmValidator.NoTextNoTopics | backend/validators/llm_validator.py:41 | A chunk without "text" contributes no topic. |
| LlmValidator.NormalizeQ | backend/validators/llm_validator.py:54-58 | `normalize_q`; `NormalizeShape`, `NormalFixed` and `NormalizeIdempotent` state its output shape and that it is a normal form. |
| LlmValidator.BlankOthers | backend/validators/llm_validator.py:56 | Replacing the other characters by spaces keeps the length. |
| LlmValidator.NormalizeShape | backend/validators/llm_validator.py:54-58 | The output has only lower-case letters, digits and single spaces, with no space at either end. |
| LlmValidator.NormalFixed | backend/validators/llm_validator.py:54-58 | Any string of that shape is its own normal form. |
| LlmValidator.NormalizeIdempotent | backend/validators/llm_validator.py:54-58 | Normalising twice is normalising once. |
| LlmValidator.LabelledHasColon | backend/validators/llm_validator.py:114-117 | A line recognised by its tag holds a ':', so `split(":", 1)[1]` exists. |
| LlmValidator.TagsExclusive | backend/validators/llm_validator.py:116-123 | A line carries at most one of the three tags. |
| LlmValidator.ReadTurn | backend/validators/llm_validator.py:113-123 | One turn of the line loop updates the field whose tag the line carries. |
| LlmValidator.ReadLinesLast | backend/validators/llm_validator.py:113-123 | After the loop each field holds the value of the last line with its tag. The decision is upper-cased. |
| LlmValidator.ParseLlmOutput | backend/validators/llm_validator.py:109-134 | The decision is the upper-cased last DECISION value when that is YES or NO, else "NO". Justification and module are the last values with their tags when those are non-empty, else "No justification provided." and "unknown". None of the three is empty. |
| SyllabusValidator.QuestionTypeCases | backend/validators/syllabus_validator.py:42-61 | Application iff an application marker occurs in the lower-cased question. Definition iff none does and a definition marker does. Unknown otherwise. The kind ignores case. |
| SyllabusValidator.DetectQuestionType | backend/validators/syllabus_validator.py:42-61 | `detect_question_type`; `QuestionTypeCases` states when each kind is returned. |
| SyllabusValidator.NonStopExact | backend/validators/syllabus_validator.py:69-70 | The filter keeps exactly the tokens that are not stopwords. |
| SyllabusValidator.CoreTermsShape | backend/validators/syllabus_validator.py:63-70 | The core terms are the first min(4, n) non-stopword letter runs, in order. Each is non-empty, lower-case and a whole maximal run of the lower-cased question. |
| SyllabusValidator.CoreTermsNotEmpty | backend/validators/syllabus_validator.py:69-70 | No core term is empty. |
| SyllabusValidator.ExtractCoreTerms | backend/validators/syllabus_validator.py:63-70 | `extract_core_terms`; `CoreTermsShape` and `CoreTermsNotEmpty` state which terms it returns. |
| SyllabusValidator.TopicPresent | backend/validators/syllabus_validator.py:72-74 | Some core term is a substring of the lower-cased chunk texts joined by spaces; `TopicNeedsChunks` states that it needs a chunk. |
| SyllabusValidator.TopicNeedsChunks | backend/validators/syllabus_validator.py:72-74 | With non-empty terms, a present topic implies a non-empty chunk list, so `top_chunks[0]` exists. |
| SyllabusValidator.TagColon | backend/validators/syllabus_validator.py:120-125 | A line whose upper-cased form starts with a tag has its ':' at the tag's end. |
| SyllabusValidator.ReplyTagsExclusive | backend/validators/syllabus_validator.py:119-125 | A reply line carries at most one of the three tags. |
| SyllabusValidator.ReadReplyLast | backend/validators/syllabus_validator.py:115-125 | Each field is the trimmed value of the last line with its tag, else its default ("NO", "LLM could not validate.", "unknown"). |
| SyllabusValidator.ParseApplicationReply | backend/validators/syllabus_validator.py:113-125 | The line loop returns those three values. |
| SyllabusValidator.GateFirst | backend/validators/syllabus_validator.py:144-150 | Below the threshold the answer is "NO" with module "unknown", before any other check. |
| SyllabusValidator.NonApplicationRules | backend/validators/syllabus_validator.py:152-193 | Past the gate, a definition or unknown question gets "YES" iff a core term occurs in the chunk text, and only "YES" or "NO". The module is "unknown" on "NO", and on "YES" the first chunk's module, or "unknown" when that is missing or empty. |
| SyllabusValidator.ApplicationRule | backend/validators/syllabus_validator.py:179-186 | Past the gate, an application question gets the parsed reply of the model unchanged. The decision need not be YES or NO. |
| SyllabusValidator.ValidateQuestion | backend/validators/syllabus_validator.py:137-193 | `validate_question`; `GateFirst`, `NonApplicationRules` and `ApplicationRule` state its gate and decision tree. |
| QuestionAnalyzer.AnalyzeQuestion | backend/services/question_analyzer.py:14-38 | The gate passes iff similarity >= threshold, and the validator is consulted iff it passes. The question is in iff the gate passed and the decision is exactly "YES". Past the gate, the reason is the validator's justification. |
| QuestionAnalyzer.ValidatorGateUnreachable | backend/services/question_analyzer.py:14-29 | With `validate_question` as the validator, its own similarity gate is never taken. |
| QuestionAnalyzer.InSyllabusWithoutLlm | backend/services/question_analyzer.py:24-38 | With `validate_question` as the validator, a question that is not an application question is in iff the gate passes and a core term occurs in the chunk text. |
| Text.RunsCharacterization | backend/validators/syllabus_validator.py:69 | A string is among the runs of a class iff it is a whole, non-empty, maximal run of that class. |
| Text.Strip | backend/app.py:82 | `str.strip()` gives a string with no whitespace at either end. It is empty iff the input is blank, and a stripped input is unchanged. |

## Left out

- Flask routing and request handling are not modelled:
  - the OPTIONS preflight;
  - form versus JSON bodies;
  - the `float(threshold)` conversion (the threshold arrives as an optional `real`);
  - the PDF mode and its reader;
  - `jsonify`, the upload routes and the in-memory syllabus registries.

  These are I/O plumbing.
- The vector store and the embedder are foreign libraries. `vector_db.query(q, k=3)` is a function parameter of the endpoint, assumed to answer the same question the same way.
- Model loading, prompt construction and the model call are not modelled. This covers `get_llm`, the prompt of `llm_validate_application` and its `[:200]` snippets, `build_prompt` with `textwrap.shorten`, and the `validate_question` of llm_validator.py. The model is a function from question and chunks to reply text.
- Formatters.TruncateText: lengths and the cut count Unicode code points, not the UTF-16 code units of JavaScript's `length` and `substring`. Text outside the Basic Multilingual Plane is therefore cut at a different place, and the model never splits a surrogate pair.
- Case mapping and the letter and digit classes cover ASCII only. Whitespace follows the code points of Python's and JavaScript's `\s`.
- Scores are `real`. The code only compares them, so floating-point rounding is not modelled.
- `formatSimilarityScore` (`toFixed`), the bar's width percentage and the card's expand/collapse state are presentation only.
- LlmValidator.ExtractTopics returns the topic set, not `list(topic_set)`. Python's set iteration order is unspecified, so the order of that list is not modelled.
- LlmValidator.ChunkText treats a chunk whose "text" is absent as "". A chunk whose "text" is `None` would raise in the source; that error is not modelled.
- The verdict badge of the question card is a lookup table and is not modelled beyond the verdict itself.
