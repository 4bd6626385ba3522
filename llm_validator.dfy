/**
 * The text logic of backend/validators/llm_validator.py with the language
 * model left out: the topic words of the retrieved chunks
 * (`extract_topics_from_chunks`), the question normaliser (`normalize_q`)
 * and the parser of the model's three-line reply (`parse_llm_output`).
 */
module LlmValidator {
  import opened Wrappers
  import opened Text

  // ---------------------------------------------------------------------
  // Topics of the retrieved chunks
  // ---------------------------------------------------------------------

  /** `GENERIC_WORDS`: words never taken as topics. */
  const GenericWords: set<string> := {
    "the", "and", "or", "of", "to", "a", "in", "on", "for", "with",
    "introduction", "importance", "overview", "basics", "concepts",
    "security", "system", "information", "data", "technology"
  }

  /** A chunk as a dict: its "text" entry may be missing. */
  datatype ChunkDict = ChunkDict(text: Option<string>)

  /** The words of `ws` with at least four letters, in order. */
  function LongOnes(ws: seq<string>): (r: seq<string>)
  {
    if ws == [] then []
    else LongOnes(ws[..|ws| - 1]) + (if |ws[|ws| - 1]| >= 4 then [ws[|ws| - 1]] else [])
  }

  /** A word is kept exactly when it has four letters or more. */
  lemma {:induction false} LongOnesExact(ws: seq<string>, w: string)
    ensures w in LongOnes(ws) <==> w in ws && |w| >= 4
  {
    if ws != [] {
      var init := ws[..|ws| - 1];
      LongOnesExact(init, w);
      assert ws == init + [ws[|ws| - 1]];
    }
  }

  /**
   * `re.findall(r"[a-zA-Z]{4,}", s)`: a greedy match consumes a whole run
   * of letters, and a run shorter than four letters is skipped, so the
   * matches are the maximal runs of four letters or more.
   */
  function LongWords(s: string): seq<string>
  {
    LongOnes(Runs(s, AsciiLetter))
  }

  /** `c.get("text", "").lower()`. */
  function ChunkText(c: ChunkDict): string
  {
    Lower(c.text.GetOr(""))
  }

  /** The topics one chunk adds: its long words that are not generic. */
  function ChunkTopics(c: ChunkDict): set<string>
  {
    set w | w in LongWords(ChunkText(c)) && w !in GenericWords
  }

  /** The topics of all the chunks. */
  function TopicsOf(chunks: seq<ChunkDict>): set<string>
  {
    if chunks == [] then {}
    else TopicsOf(chunks[..|chunks| - 1]) + ChunkTopics(chunks[|chunks| - 1])
  }

  /**
   * `extract_topics_from_chunks`. Python returns `list(topic_set)`, whose
   * order is that of the set; the model returns the set.
   */
  method ExtractTopics(chunks: seq<ChunkDict>) returns (topicSet: set<string>)
    ensures topicSet == TopicsOf(chunks)
  {
    topicSet := {};
    for i := 0 to |chunks|
      invariant topicSet == TopicsOf(chunks[..i])
    {
      var text := Lower(chunks[i].text.GetOr(""));
      var words := LongWords(text);
      for j := 0 to |words|
        invariant topicSet == TopicsOf(chunks[..i]) + set w | w in words[..j] && w !in GenericWords
      {
        assert words[..j + 1] == words[..j] + [words[j]];
        if words[j] !in GenericWords {
          topicSet := topicSet + {words[j]};
        }
      }
      assert words[..|words|] == words;
      assert chunks[..i + 1][..i] == chunks[..i];
    }
    assert chunks[..|chunks|] == chunks;
  }

  /**
   * A word is a topic iff it is not generic and is a maximal run of at
   * least four letters in the lower-cased text of some chunk; a chunk
   * without "text" has none.
   */
  lemma {:induction false} TopicsExact(chunks: seq<ChunkDict>, w: string)
    ensures w in TopicsOf(chunks) <==>
      w !in GenericWords && |w| >= 4 &&
      exists i, a, b :: 0 <= i < |chunks| && MaximalRun(ChunkText(chunks[i]), a, b, AsciiLetter)
        && ChunkText(chunks[i])[a..b] == w
  {
    if chunks != [] {
      var init := chunks[..|chunks| - 1];
      var last := chunks[|chunks| - 1];
      TopicsExact(init, w);
      ChunkTopicsExact(last, w);
      if exists i, a, b ::
           0 <= i < |chunks| && MaximalRun(ChunkText(chunks[i]), a, b, AsciiLetter) && ChunkText(chunks[i])[a..b] == w
      {
        var i, a, b :| 0 <= i < |chunks| && MaximalRun(ChunkText(chunks[i]), a, b, AsciiLetter)
          && ChunkText(chunks[i])[a..b] == w;
        if i < |init| {
          assert init[i] == chunks[i];
        }
      }
    }
  }

  /** The topics of one chunk, in terms of its maximal letter runs. */
  lemma ChunkTopicsExact(c: ChunkDict, w: string)
    ensures w in ChunkTopics(c) <==>
      w !in GenericWords && |w| >= 4 &&
      exists a, b :: MaximalRun(ChunkText(c), a, b, AsciiLetter) && ChunkText(c)[a..b] == w
  {
    LongOnesExact(Runs(ChunkText(c), AsciiLetter), w);
    RunsCharacterization(ChunkText(c), AsciiLetter, w);
  }

  /** A chunk without "text" contributes no topic. */
  lemma NoTextNoTopics(c: ChunkDict)
    requires c.text.None?
    ensures ChunkTopics(c) == {}
  {
    assert Runs(ChunkText(c), AsciiLetter) == [];
  }

  // ---------------------------------------------------------------------
  // normalize_q
  // ---------------------------------------------------------------------

  /** A character `[a-zA-Z0-9 ]` keeps. */
  predicate IsWordOrSpace(c: char)
  {
    IsLower(c) || IsUpper(c) || IsDigit(c) || c == ' '
  }

  /** `re.sub(r"[^a-zA-Z0-9 ]", " ", s)`: every other character becomes a space. */
  function BlankOthers(s: string): (r: string)
    ensures |r| == |s|
  {
    seq(|s|, i requires 0 <= i < |s| => if IsWordOrSpace(s[i]) then s[i] else ' ')
  }

  /** `re.sub(r"\s+", " ", s[i..])`: every run of whitespace becomes one space. */
  function SquashFrom(s: string, i: nat): string
    requires i <= |s|
    decreases |s| - i
  {
    if i == |s| then []
    else if IsPySpace(s[i]) then " " + SquashFrom(s, RunEnd(s, i, PySpace))
    else [s[i]] + SquashFrom(s, i + 1)
  }

  /** `normalize_q`: lower-case, blank out punctuation, squeeze whitespace, strip. */
  function NormalizeQ(q: string): string
  {
    Strip(SquashFrom(BlankOthers(Lower(q)), 0))
  }

  /** Only lower-case letters, digits and spaces. */
  predicate LowerWordsOrSpaces(s: string)
  {
    forall m :: 0 <= m < |s| ==> IsLower(s[m]) || IsDigit(s[m]) || s[m] == ' '
  }

  /** No two spaces in a row. */
  predicate SingleSpaced(s: string)
  {
    forall m :: 0 < m < |s| ==> !(s[m - 1] == ' ' && s[m] == ' ')
  }

  /** The shape of a normalised question: words of `[a-z0-9]` separated by single spaces. */
  predicate IsNormal(s: string)
  {
    LowerWordsOrSpaces(s) && SingleSpaced(s) && (s == [] || (s[0] != ' ' && s[|s| - 1] != ' '))
  }

  /** Squeezing keeps the characters `[a-z0-9 ]` and leaves no two spaces in a row. */
  lemma {:induction false} SquashFromShape(s: string, i: nat)
    requires i <= |s| && LowerWordsOrSpaces(s)
    ensures LowerWordsOrSpaces(SquashFrom(s, i)) && SingleSpaced(SquashFrom(s, i))
    ensures i < |s| && s[i] != ' ' ==> SquashFrom(s, i) != [] && SquashFrom(s, i)[0] == s[i]
    decreases |s| - i
  {
    if i < |s| {
      if IsPySpace(s[i]) {
        var j := RunEnd(s, i, PySpace);
        SquashFromShape(s, j);
        var rest := SquashFrom(s, j);
        assert SquashFrom(s, i) == " " + rest;
        assert rest != [] ==> rest[0] != ' ';
      } else {
        SquashFromShape(s, i + 1);
        var rest := SquashFrom(s, i + 1);
        assert SquashFrom(s, i) == [s[i]] + rest;
      }
    }
  }

  /** `normalize_q` yields words of `[a-z0-9]` separated by single spaces, with no space at either end. */
  lemma NormalizeShape(q: string)
    ensures IsNormal(NormalizeQ(q))
  {
    var t := BlankOthers(Lower(q));
    assert LowerWordsOrSpaces(t);
    SquashFromShape(t, 0);
    var u := SquashFrom(t, 0);
    var a := StripFactor(u);
    var r := Strip(u);
    assert forall m :: 0 <= m < |r| ==> r[m] == u[a + m];
  }

  /** A squeezed string without two spaces in a row is left as it is. */
  lemma {:induction false} SquashFromNormal(s: string, i: nat)
    requires i <= |s| && LowerWordsOrSpaces(s) && SingleSpaced(s)
    ensures SquashFrom(s, i) == s[i..]
    decreases |s| - i
  {
    if i < |s| {
      if IsPySpace(s[i]) {
        assert s[i] == ' ';
        RunEndExact(s, i, i + 1, PySpace);
        SquashFromNormal(s, i + 1);
      } else {
        SquashFromNormal(s, i + 1);
      }
      assert s[i..] == [s[i]] + s[i + 1..];
    }
  }

  /** A normalised question is its own normal form. */
  lemma NormalFixed(s: string)
    requires IsNormal(s)
    ensures NormalizeQ(s) == s
  {
    assert Lower(s) == s;
    assert BlankOthers(s) == s;
    SquashFromNormal(s, 0);
  }

  /** `normalize_q` is idempotent. */
  lemma NormalizeIdempotent(q: string)
    ensures NormalizeQ(NormalizeQ(q)) == NormalizeQ(q)
  {
    NormalizeShape(q);
    NormalFixed(NormalizeQ(q));
  }

  // ---------------------------------------------------------------------
  // parse_llm_output
  // ---------------------------------------------------------------------

  /** A field tag such as "DECISION:": upper case, ending with a colon and starting with something else. */
  predicate IsTag(tag: string)
  {
    |tag| >= 2 && tag[|tag| - 1] == ':' && !IsLower(tag[0]) && tag[0] != ':'
  }

  /** A line whose trimmed upper-case form starts with a tag holds a colon. */
  lemma LabelledHasColon(line: string, tag: string)
    requires IsTag(tag) && StartsWith(Strip(Upper(line)), tag)
    ensures exists m :: 0 <= m < |line| && line[m] == ':'
  {
    var u := Upper(line);
    var a := StripFactor(u);
    var m := a + |tag| - 1;
    assert u[m] == Strip(u)[|tag| - 1] == ':';
    assert UpperChar(line[m]) == ':';
  }

  /**
   * The value of a line labelled `tag` (say "DECISION:") in the reply:
   * the line's upper-case form, trimmed, starts with the tag, and the
   * value is the text after the line's first colon, trimmed.
   */
  function LabelledValue(line: string, tag: string): Option<string>
    requires IsTag(tag)
  {
    if StartsWith(Strip(Upper(line)), tag) then
      LabelledHasColon(line, tag);
      Some(Strip(AfterFirst(line, ':')))
    else None
  }

  /** A line is tagged for one field at most: the tags start with different letters. */
  lemma TagsExclusive(line: string)
    ensures LabelledValue(line, "DECISION:").Some? ==> LabelledValue(line, "JUSTIFICATION:").None?
    ensures LabelledValue(line, "DECISION:").Some? ==> LabelledValue(line, "MODULE:").None?
    ensures LabelledValue(line, "JUSTIFICATION:").Some? ==> LabelledValue(line, "MODULE:").None?
  {
    var u := Strip(Upper(line));
    PrefixesDiffer(u, "DECISION:", "JUSTIFICATION:");
    PrefixesDiffer(u, "DECISION:", "MODULE:");
    PrefixesDiffer(u, "JUSTIFICATION:", "MODULE:");
  }

  /** The fields the loop of `parse_llm_output` has read so far; `None` is Python's `None`. */
  datatype Fields = Fields(decision: Option<string>, justification: Option<string>, moduleName: Option<string>)

  /**
   * One turn of the loop on a line: a DECISION line sets the decision,
   * upper-cased; otherwise a JUSTIFICATION line sets the justification;
   * otherwise a MODULE line sets the module.
   */
  function ReadLine(f: Fields, line: string): Fields
  {
    var d := LabelledValue(line, "DECISION:");
    if d.Some? then f.(decision := Some(Upper(d.value)))
    else
      var j := LabelledValue(line, "JUSTIFICATION:");
      if j.Some? then f.(justification := j)
      else
        var m := LabelledValue(line, "MODULE:");
        if m.Some? then f.(moduleName := m) else f
  }

  /** The fields after the loop has read `lines`. */
  function ReadLines(lines: seq<string>): Fields
  {
    if lines == [] then Fields(None, None, None)
    else ReadLine(ReadLines(lines[..|lines| - 1]), lines[|lines| - 1])
  }

  /** The value of the last of `lines` tagged `tag`, if any line is. */
  function LastValue(lines: seq<string>, tag: string): Option<string>
    requires IsTag(tag)
  {
    if lines == [] then None
    else
      var v := LabelledValue(lines[|lines| - 1], tag);
      if v.Some? then v else LastValue(lines[..|lines| - 1], tag)
  }

  /** `Upper` of an optional value. */
  function UpperOf(v: Option<string>): Option<string>
  {
    if v.Some? then Some(Upper(v.value)) else None
  }

  /** When a field's tag appears on several lines, the last of them wins. */
  lemma {:induction false} ReadLinesLast(lines: seq<string>)
    ensures ReadLines(lines).decision == UpperOf(LastValue(lines, "DECISION:"))
    ensures ReadLines(lines).justification == LastValue(lines, "JUSTIFICATION:")
    ensures ReadLines(lines).moduleName == LastValue(lines, "MODULE:")
  {
    if lines != [] {
      ReadLinesLast(lines[..|lines| - 1]);
      TagsExclusive(lines[|lines| - 1]);
    }
  }

  /** The decision `parse_llm_output` settles on for the upper-cased value of the last DECISION line. */
  function SettledDecision(d: Option<string>): string
  {
    if d == Some("YES") || d == Some("NO") then d.value else "NO"
  }

  /** A justification or module value, or `default` when it is missing or empty. */
  function OrDefault(v: Option<string>, default: string): string
  {
    if v.Some? && v.value != "" then v.value else default
  }

  /**
   * `parse_llm_output`: read the reply line by line, then put "NO" for a
   * decision other than YES or NO and defaults for an empty justification
   * or module.
   */
  method ParseLlmOutput(raw: string) returns (decision: string, justification: string, moduleName: string)
    ensures decision == SettledDecision(UpperOf(LastValue(SplitLines(raw), "DECISION:")))
    ensures justification == OrDefault(LastValue(SplitLines(raw), "JUSTIFICATION:"), "No justification provided.")
    ensures moduleName == OrDefault(LastValue(SplitLines(raw), "MODULE:"), "unknown")
    ensures decision == "YES" || decision == "NO"
    ensures justification != "" && moduleName != ""
  {
    var d: Option<string>, j: Option<string>, m: Option<string> := None, None, None;
    var lines := SplitLines(raw);
    for i := 0 to |lines|
      invariant Fields(d, j, m) == ReadLines(lines[..i])
    {
      assert lines[..i + 1][..i] == lines[..i];
      d, j, m := ReadTurn(d, j, m, lines[i]);
    }
    assert lines[..|lines|] == lines;
    ReadLinesLast(lines);
    decision := if d == Some("YES") || d == Some("NO") then d.value else "NO";
    justification := if j.Some? && j.value != "" then j.value else "No justification provided.";
    moduleName := if m.Some? && m.value != "" then m.value else "unknown";
  }

  /** One turn of the loop of `parse_llm_output` on `line`. */
  method ReadTurn(d: Option<string>, j: Option<string>, m: Option<string>, line: string)
    returns (d': Option<string>, j': Option<string>, m': Option<string>)
    ensures Fields(d', j', m') == ReadLine(Fields(d, j, m), line)
  {
    d', j', m' := d, j, m;
    var up := Strip(Upper(line));
    if StartsWith(up, "DECISION:") {
      LabelledHasColon(line, "DECISION:");
      d' := Some(Upper(Strip(AfterFirst(line, ':'))));
    } else if StartsWith(up, "JUSTIFICATION:") {
      LabelledHasColon(line, "JUSTIFICATION:");
      j' := Some(Strip(AfterFirst(line, ':')));
    } else if StartsWith(up, "MODULE:") {
      LabelledHasColon(line, "MODULE:");
      m' := Some(Strip(AfterFirst(line, ':')));
    }
  }
}
