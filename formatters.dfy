/**
 * The string helpers of formatters.js that carry logic: truncation, the
 * binary decision label and badge style, and the one-line syllabus
 * description.
 */
module Formatters {
  import opened Wrappers
  import opened Records
  import opened Text

  /** The default `maxLength` of `truncateText`. */
  const DefaultMaxLength: int := 100

  /**
   * `truncateText`: the text itself when it fits, otherwise its first
   * `maxLength` characters and "..." (JavaScript's `substring` treats a
   * negative end as 0).
   */
  function TruncateText(text: string, maxLength: int): (r: string)
    ensures |text| <= maxLength ==> r == text
    ensures |text| > maxLength ==> |r| == (if maxLength < 0 then 0 else maxLength) + 3
    ensures |text| > maxLength ==> r[|r| - 3..] == "..."
    ensures |text| > maxLength ==> r[..|r| - 3] == text[..|r| - 3]
  {
    if |text| <= maxLength then text
    else
      var n := if maxLength < 0 then 0 else maxLength;
      text[..n] + "..."
  }

  /** `truncateText(text)` with the default bound: at most 100 characters and "...". */
  function TruncateTextDefault(text: string): (r: string)
    ensures |r| <= DefaultMaxLength + 3
    ensures |text| <= DefaultMaxLength ==> r == text
  {
    TruncateText(text, DefaultMaxLength)
  }

  const InSyllabusBadge := "bg-green-100 text-green-800 border-green-300"
  const OutOfSyllabusBadge := "bg-red-100 text-red-800 border-red-300"

  /** `getDecisionBadgeClass`: green for a truthy decision, red otherwise. */
  function DecisionBadgeClass(isInSyllabus: Option<bool>): (c: string)
    ensures c == InSyllabusBadge <==> Truthy(isInSyllabus)
    ensures c == OutOfSyllabusBadge <==> !Truthy(isInSyllabus)
  {
    if Truthy(isInSyllabus) then InSyllabusBadge else OutOfSyllabusBadge
  }

  /** `getDecisionLabel`: "In Syllabus" for a truthy decision, "Out of Syllabus" otherwise. */
  function DecisionLabel(isInSyllabus: Option<bool>): (l: string)
    ensures l == "In Syllabus" <==> Truthy(isInSyllabus)
    ensures l == "Out of Syllabus" <==> !Truthy(isInSyllabus)
  {
    if Truthy(isInSyllabus) then "In Syllabus" else "Out of Syllabus"
  }

  /** The badge is green exactly when the label says "In Syllabus". */
  lemma BadgeMatchesLabel(isInSyllabus: Option<bool>)
    ensures DecisionBadgeClass(isInSyllabus) == InSyllabusBadge <==>
            DecisionLabel(isInSyllabus) == "In Syllabus"
  {
  }

  /** The metadata the backend stores for a syllabus. */
  datatype SyllabusMetadata = SyllabusMetadata(
    department: string,
    program: string,
    semester: string,
    subjectCode: string,
    subjectName: string)

  const Separator := " - "

  /** `formatSyllabusMetadata`: department, program, semester and subject name, separated by " - ". */
  function FormatSyllabusMetadata(m: SyllabusMetadata): string
  {
    m.department + Separator + m.program + Separator + "Sem " + m.semester + Separator + m.subjectName
  }

  /** The first position at or after `p` where `sep` occurs in `s`, or -1. */
  function IndexFrom(s: string, sep: string, p: nat): (i: int)
    requires p <= |s|
    ensures i == -1 || (p <= i <= |s| - |sep| && s[i..i + |sep|] == sep)
    decreases |s| - p
  {
    if p + |sep| > |s| then -1
    else if s[p..p + |sep|] == sep then p
    else IndexFrom(s, sep, p + 1)
  }

  predicate NoDash(s: string)
  {
    forall i :: 0 <= i < |s| ==> s[i] != '-'
  }

  /** Reads the four displayed fields back from a formatted line. */
  function ParseSyllabusLine(line: string): Option<(string, string, string, string)>
  {
    var i := IndexFrom(line, Separator, 0);
    if i < 0 then None
    else
      var rest := line[i + 3..];
      var j := IndexFrom(rest, Separator, 0);
      if j < 0 || !StartsWith(rest[j + 3..], "Sem ") then None
      else
        var tail := rest[j + 3..][4..];
        var k := IndexFrom(tail, Separator, 0);
        if k < 0 then None
        else Some((line[..i], rest[..j], tail[..k], tail[k + 3..]))
  }

  /** A dash-free field followed by the separator: the first separator is the one after the field. */
  lemma {:induction false} FirstSeparatorAfter(x: string, y: string, p: nat)
    requires NoDash(x) && p <= |x|
    ensures IndexFrom(x + Separator + y, Separator, p) == |x|
    decreases |x| - p
  {
    var s := x + Separator + y;
    if p < |x| {
      assert s[p + 1] != '-';
      assert s[p..p + 3] != Separator;
      FirstSeparatorAfter(x, y, p + 1);
    } else {
      assert s[p..p + 3] == Separator;
    }
  }

  lemma SplitAtSeparator(x: string, y: string)
    requires NoDash(x)
    ensures var s := x + Separator + y;
      IndexFrom(s, Separator, 0) == |x| && s[..|x|] == x && s[|x| + 3..] == y
  {
    FirstSeparatorAfter(x, y, 0);
    var s := x + Separator + y;
    assert s[..|x|] == x;
    assert s[|x| + 3..] == y;
  }

  /** What the parser returns once the three separators are located. */
  lemma ParseWithSeparators(line: string, rest: string, sem: string, tail: string, i: nat, j: nat, k: nat)
    requires i + 3 <= |line| && IndexFrom(line, Separator, 0) == i && line[i + 3..] == rest
    requires j + 3 <= |rest| && IndexFrom(rest, Separator, 0) == j && rest[j + 3..] == sem
    requires StartsWith(sem, "Sem ") && sem[4..] == tail
    requires k + 3 <= |tail| && IndexFrom(tail, Separator, 0) == k
    ensures ParseSyllabusLine(line) == Some((line[..i], rest[..j], tail[..k], tail[k + 3..]))
  {
  }

  /** The formatted line, grouped from the right. */
  lemma FormatNested(m: SyllabusMetadata)
    ensures FormatSyllabusMetadata(m) ==
            m.department + Separator + (m.program + Separator + ("Sem " + (m.semester + Separator + m.subjectName)))
  {
  }

  /** The parser reads back the four fields of a line grouped from the right. */
  lemma ParseNested(department: string, program: string, semester: string, subjectName: string)
    requires NoDash(department) && NoDash(program) && NoDash(semester)
    ensures ParseSyllabusLine(department + Separator + (program + Separator + ("Sem " + (semester + Separator + subjectName)))) ==
            Some((department, program, semester, subjectName))
  {
    var tail := semester + Separator + subjectName;
    var sem := "Sem " + tail;
    var rest := program + Separator + sem;
    var line := department + Separator + rest;
    SplitAtSeparator(department, rest);
    SplitAtSeparator(program, sem);
    SplitAtSeparator(semester, subjectName);
    assert sem[4..] == tail;
    ParseWithSeparators(line, rest, sem, tail, |department|, |program|, |semester|);
  }

  /**
   * The formatted line determines department, program, semester and subject
   * name, provided the first three contain no dash.
   */
  lemma FormatRoundTrip(m: SyllabusMetadata)
    requires NoDash(m.department) && NoDash(m.program) && NoDash(m.semester)
    ensures ParseSyllabusLine(FormatSyllabusMetadata(m)) ==
            Some((m.department, m.program, m.semester, m.subjectName))
  {
    FormatNested(m);
    ParseNested(m.department, m.program, m.semester, m.subjectName);
  }
}
