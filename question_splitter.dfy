/**
 * `split_questions` of backend/app.py: a question paper is cut at its
 * `Q<digits>:` labels when it has any, otherwise at its non-blank lines,
 * otherwise it is one question.
 *
 * The regular expression `Q\d+\s*:` is modelled by `LabelAt`, and
 * `re.split` with that pattern in a capturing group by `LabelSplit`: its
 * parts alternate between label-free text (even positions) and labels (odd
 * positions).
 */
module QuestionSplitter {
  import opened Wrappers
  import opened Text

  // ---------------------------------------------------------------------
  // The label pattern Q\d+\s*:
  // ---------------------------------------------------------------------

  /**
   * The end of the label `Q\d+\s*:` that starts at `p`, if one does. No
   * backtracking is needed: giving back a digit or a space never exposes
   * the ':' the pattern needs next.
   */
  function LabelAt(s: string, p: nat): (e: Option<nat>)
    requires p <= |s|
    ensures e.Some? ==> p + 3 <= e.value <= |s| && s[p] == 'Q' && s[e.value - 1] == ':'
  {
    if p < |s| && s[p] == 'Q' then
      var d := RunEnd(s, p + 1, Digit);
      var w := RunEnd(s, d, PySpace);
      if d > p + 1 && w < |s| && s[w] == ':' then Some(w + 1) else None
    else None
  }

  /** The shape of a label: 'Q', one or more digits, any whitespace, ':'. */
  ghost predicate LabelShape(t: string)
  {
    |t| >= 3 && t[0] == 'Q' && t[|t| - 1] == ':' &&
    exists d :: 2 <= d < |t| && AllIn(t[1..d], Digit) && AllIn(t[d..|t| - 1], PySpace)
  }

  /** `t` is exactly one whole label. */
  predicate IsLabel(t: string)
  {
    LabelAt(t, 0) == Some(|t|)
  }

  /** No label starts anywhere in `t`. */
  predicate LabelFree(t: string)
  {
    forall i :: 0 <= i < |t| ==> LabelAt(t, i).None?
  }

  /** A label read off the scanner has the label's shape. */
  lemma LabelHasShape(t: string)
    requires IsLabel(t)
    ensures LabelShape(t)
  {
    var d := RunEnd(t, 1, Digit);
    var e := |t| - 1;
    RunEndSpan(t, 1, Digit);
    RunEndSpan(t, d, PySpace);
    assert AllIn(t[1..d], Digit);
    assert AllIn(t[d..e], PySpace);
  }

  /** A string of the label's shape is read off the scanner as one whole label. */
  lemma ShapeIsLabel(t: string)
    requires LabelShape(t)
    ensures IsLabel(t)
  {
    var e := |t| - 1;
    var d :| 2 <= d < |t| && AllIn(t[1..d], Digit) && AllIn(t[d..e], PySpace);
    forall m | 1 <= m < d
      ensures In(t[m], Digit)
    {
      assert t[1..d][m - 1] == t[m];
    }
    forall m | d <= m < e
      ensures In(t[m], PySpace)
    {
      assert t[d..e][m - d] == t[m];
    }
    assert !In(t[d], Digit);
    RunEndExact(t, 1, d, Digit);
    RunEndExact(t, d, e, PySpace);
    LabelAtIs(t, 0, d, e);
  }

  /** The scanner matches exactly the strings of the label's shape. */
  lemma LabelMatchesShape(t: string)
    ensures IsLabel(t) <==> LabelShape(t)
  {
    if IsLabel(t) {
      LabelHasShape(t);
    }
    if LabelShape(t) {
      ShapeIsLabel(t);
    }
  }

  /** The scanner finds a label at `p` from the ends `d` of its digits and `w` of its spaces. */
  lemma LabelAtIs(s: string, p: nat, d: nat, w: nat)
    requires p < |s| && s[p] == 'Q'
    requires d == RunEnd(s, p + 1, Digit) && d > p + 1
    requires w == RunEnd(s, d, PySpace) && w < |s| && s[w] == ':'
    ensures LabelAt(s, p) == Some(w + 1)
  {
  }

  lemma SliceAt(s: string, a: nat, b: nat, i: nat)
    requires a <= b <= |s| && i < b - a
    ensures s[a..b][i] == s[a + i]
  {
  }

  /** What the scanner checked when it found a label at `p`. */
  lemma LabelAtParts(s: string, p: nat)
    requires p <= |s| && LabelAt(s, p).Some?
    ensures p < |s| && s[p] == 'Q'
    ensures var d := RunEnd(s, p + 1, Digit); var w := RunEnd(s, d, PySpace);
      p + 1 < d <= w < |s| && s[w] == ':' && LabelAt(s, p) == Some(w + 1)
  {
  }

  /** A label found in a slice is a label of the whole text at the same place. */
  lemma LabelOfSlice(s: string, a: nat, b: nat, i: nat)
    requires a <= b <= |s| && i <= b - a
    requires LabelAt(s[a..b], i).Some?
    ensures LabelAt(s, a + i) == Some(LabelAt(s[a..b], i).value + a)
  {
    var t := s[a..b];
    LabelAtParts(t, i);
    var q := i + 1;
    var dT := RunEnd(t, q, Digit);
    var wT := RunEnd(t, dT, PySpace);
    RunEndInSlice(s, a, b, q, Digit);
    RunEndInSlice(s, a, b, dT, PySpace);
    var p, dS, wS := a + i, dT + a, wT + a;
    SliceAt(s, a, b, i);
    SliceAt(s, a, b, wT);
    LabelAtIs(s, p, dS, wS);
  }

  /** A label of the whole text that ends inside the slice is found in the slice. */
  lemma LabelInSlice(s: string, a: nat, b: nat, i: nat)
    requires a <= b <= |s| && i <= b - a
    requires LabelAt(s, a + i).Some? && LabelAt(s, a + i).value <= b
    ensures LabelAt(s[a..b], i) == Some(LabelAt(s, a + i).value - a)
  {
    var t := s[a..b];
    var p, q := a + i, i + 1;
    LabelAtParts(s, p);
    var dS := RunEnd(s, p + 1, Digit);
    var wS := RunEnd(s, dS, PySpace);
    RunEndInWhole(s, a, b, q, Digit);
    var dT := dS - a;
    RunEndInWhole(s, a, b, dT, PySpace);
    var wT := wS - a;
    SliceAt(s, a, b, i);
    SliceAt(s, a, b, wT);
    LabelAtIs(t, i, dT, wT);
  }

  // ---------------------------------------------------------------------
  // re.split(r'(Q\d+\s*:)', s)
  // ---------------------------------------------------------------------

  /** The split of `s[start..]`, scanning for the next label from `p`. */
  function SplitFrom(s: string, start: nat, p: nat): (parts: seq<string>)
    requires start <= p <= |s|
    ensures |parts| % 2 == 1
    decreases |s| - p
  {
    if p == |s| then [s[start..]]
    else
      match LabelAt(s, p)
      case Some(e) => [s[start..p], s[p..e]] + SplitFrom(s, e, e)
      case None => SplitFrom(s, start, p + 1)
  }

  /** `re.split(r'(Q\d+\s*:)', s)`. */
  function LabelSplit(s: string): seq<string>
  {
    SplitFrom(s, 0, 0)
  }

  /** Label-free text at even positions, whole labels at odd positions. */
  predicate Alternates(parts: seq<string>)
  {
    |parts| % 2 == 1 &&
    forall k :: 0 <= k < |parts| ==> if k % 2 == 0 then LabelFree(parts[k]) else IsLabel(parts[k])
  }

  lemma AlternatesCons(x: string, y: string, rest: seq<string>)
    requires LabelFree(x) && IsLabel(y) && Alternates(rest)
    ensures Alternates([x, y] + rest)
  {
    var parts := [x, y] + rest;
    forall k | 2 <= k < |parts|
      ensures if k % 2 == 0 then LabelFree(parts[k]) else IsLabel(parts[k])
    {
      var j := k - 2;
      assert parts[k] == rest[j] && k % 2 == j % 2;
    }
  }

  lemma SliceLabelFree(s: string, a: nat, b: nat)
    requires a <= b <= |s|
    requires forall q :: a <= q < b ==> LabelAt(s, q).None?
    ensures LabelFree(s[a..b])
  {
    forall i | 0 <= i < b - a
      ensures LabelAt(s[a..b], i).None?
    {
      if LabelAt(s[a..b], i).Some? {
        LabelOfSlice(s, a, b, i);
      }
    }
  }

  lemma {:induction false} SplitFromAlternates(s: string, start: nat, p: nat)
    requires start <= p <= |s|
    requires forall q :: start <= q < p ==> LabelAt(s, q).None?
    ensures Alternates(SplitFrom(s, start, p))
    decreases |s| - p
  {
    if p == |s| {
      SliceLabelFree(s, start, |s|);
      assert s[start..] == s[start..|s|];
      assert [s[start..]][0] == s[start..];
    } else {
      match LabelAt(s, p)
      case Some(e) =>
        SliceLabelFree(s, start, p);
        LabelInSlice(s, p, e, 0);
        SplitFromAlternates(s, e, e);
        AlternatesCons(s[start..p], s[p..e], SplitFrom(s, e, e));
      case None =>
        SplitFromAlternates(s, start, p + 1);
    }
  }

  lemma ConcatAtLabel(s: string, start: nat, p: nat, e: nat, rest: seq<string>)
    requires start <= p <= e <= |s| && Concat(rest) == s[e..]
    ensures Concat([s[start..p], s[p..e]] + rest) == s[start..]
  {
    ConcatPair(s[start..p], s[p..e], rest);
    assert s[start..] == s[start..p] + s[p..e] + s[e..];
  }

  lemma {:induction false} SplitFromConcat(s: string, start: nat, p: nat)
    requires start <= p <= |s|
    ensures Concat(SplitFrom(s, start, p)) == s[start..]
    decreases |s| - p
  {
    if p == |s| {
      assert Concat([s[start..]]) == s[start..] + Concat([]);
    } else {
      match LabelAt(s, p)
      case Some(e) =>
        var rest := SplitFrom(s, e, e);
        SplitFromConcat(s, e, e);
        ConcatAtLabel(s, start, p, e, rest);
      case None =>
        var q := p + 1;
        SplitFromConcat(s, start, q);
    }
  }

  lemma {:induction false} SplitFromCount(s: string, start: nat, p: nat)
    requires start <= p <= |s|
    requires forall q :: start <= q < p ==> LabelAt(s, q).None?
    ensures |SplitFrom(s, start, p)| == 1 <==> forall q :: start <= q < |s| ==> LabelAt(s, q).None?
    decreases |s| - p
  {
    if p < |s| && LabelAt(s, p).None? {
      SplitFromCount(s, start, p + 1);
    }
  }

  /**
   * The parts of the split alternate between label-free text and whole
   * labels, concatenate back to the text, and there is more than one part
   * iff the text holds a label.
   */
  lemma LabelSplitStructure(s: string)
    ensures Alternates(LabelSplit(s))
    ensures Concat(LabelSplit(s)) == s
    ensures |LabelSplit(s)| > 1 <==> exists q :: 0 <= q < |s| && LabelAt(s, q).Some?
  {
    SplitFromAlternates(s, 0, 0);
    SplitFromConcat(s, 0, 0);
    SplitFromCount(s, 0, 0);
  }

  // ---------------------------------------------------------------------
  // What split_questions returns
  // ---------------------------------------------------------------------

  /**
   * The bodies of the first `n` labels (the part after label `k` is
   * `parts[2 * k]`), without the blank ones, stripped, in order.
   */
  function LabelledBodies(parts: seq<string>, n: nat): (r: seq<string>)
    requires 2 * n < |parts|
    ensures |r| <= n
  {
    if n == 0 then []
    else LabelledBodies(parts, n - 1) + (if IsBlank(parts[2 * n]) then [] else [Strip(parts[2 * n])])
  }

  /** `[x.strip() for x in xs if x.strip()]`. */
  function NonBlankStripped(xs: seq<string>): (r: seq<string>)
    ensures |r| <= |xs|
    ensures forall j :: 0 <= j < |r| ==> r[j] != [] && IsStripped(r[j])
  {
    if xs == [] then []
    else NonBlankStripped(xs[..|xs| - 1]) + (if IsBlank(xs[|xs| - 1]) then [] else [Strip(xs[|xs| - 1])])
  }

  /**
   * The questions of a raw paper: none for empty input; in label mode the
   * non-blank bodies after the labels, stripped, in order (the text before
   * the first label is dropped); otherwise the non-blank lines if there is
   * more than one; otherwise the stripped text as the single question.
   */
  function QuestionsOf(raw: string): seq<string>
  {
    if raw == [] then []
    else
      var text := Strip(raw);
      var parts := LabelSplit(text);
      if |parts| > 1 then LabelledBodies(parts, |parts| / 2)
      else
        var lines := NonBlankStripped(SplitLines(text));
        if |lines| > 1 then lines else [text]
  }

  /** The texts after the first `n` labels, in order: `parts[2]`, `parts[4]`, ..., `parts[2 * n]`. */
  function Bodies(parts: seq<string>, n: nat): seq<string>
    requires 2 * n < |parts|
  {
    seq(n, j requires 0 <= j < n => parts[2 * j + 2])
  }

  /**
   * The label loop keeps exactly the non-blank texts after the labels,
   * stripped: `[x.strip() for x in parts[2::2] if x.strip()]`.
   */
  lemma {:induction false} LabelledBodiesAreBodies(parts: seq<string>, n: nat)
    requires 2 * n < |parts|
    ensures LabelledBodies(parts, n) == NonBlankStripped(Bodies(parts, n))
    decreases n
  {
    if n > 0 {
      var m := n - 1;
      LabelledBodiesAreBodies(parts, m);
      var body := parts[2 * n];
      BodiesSnoc(parts, n);
      NonBlankStrippedSnoc(Bodies(parts, m), body);
      BodiesStep(parts, n, LabelledBodies(parts, m), body);
    }
  }

  lemma BodiesSnoc(parts: seq<string>, n: nat)
    requires 1 <= n && 2 * n < |parts|
    ensures Bodies(parts, n) == Bodies(parts, n - 1) + [parts[2 * n]]
  {
  }

  lemma NonBlankStrippedSnoc(xs: seq<string>, x: string)
    ensures NonBlankStripped(xs + [x]) == NonBlankStripped(xs) + (if IsBlank(x) then [] else [Strip(x)])
  {
    assert (xs + [x])[..|xs|] == xs;
  }

  /**
   * Every question is stripped, and none is empty unless the paper is
   * non-empty but blank, which gives the one question "".
   */
  lemma QuestionsStripped(raw: string)
    ensures forall j :: 0 <= j < |QuestionsOf(raw)| ==> IsStripped(QuestionsOf(raw)[j])
    ensures (exists j :: 0 <= j < |QuestionsOf(raw)| && QuestionsOf(raw)[j] == []) <==> raw != [] && IsBlank(raw)
    ensures raw != [] && IsBlank(raw) ==> QuestionsOf(raw) == [[]]
  {
    if raw != [] {
      var text := Strip(raw);
      var parts := LabelSplit(text);
      if |parts| > 1 {
        LabelledBodiesAreBodies(parts, |parts| / 2);
        if IsBlank(raw) {
          assert text == [];
          LabelSplitStructure(text);
        }
      } else if IsBlank(raw) {
        assert text == [];
        assert SplitLines(text) == [];
        assert QuestionsOf(raw)[0] == [];
      }
    }
  }

  /** A label never strips to nothing: it starts with 'Q'. */
  lemma LabelNotBlank(t: string)
    requires IsLabel(t)
    ensures !IsBlank(t)
  {
    assert !IsPySpace(t[0]);
  }

  /** What the label loop learns about the part it is at, `i` being `2 * n` or `2 * n + 1`. */
  lemma PartAt(parts: seq<string>, i: nat, n: nat)
    requires Alternates(parts) && i < |parts| && (i == 2 * n || i == 2 * n + 1)
    ensures i == 2 * n + 1 ==> !IsBlank(parts[i]) && LabelAt(parts[i], 0).Some?
    ensures i == 2 * n ==> LabelAt(parts[i], 0).None?
  {
    if i == 2 * n + 1 {
      assert i % 2 == 1;
      LabelNotBlank(parts[i]);
    } else {
      assert i % 2 == 0;
    }
  }

  /** The variables of the label loop: `current_label`, `current_text` and `questions`. */
  datatype Scan = Scan(currentLabel: Option<string>, currentText: string, questions: seq<string>)

  /** A question is pending: a label has been seen and the text after it is not blank. */
  predicate Pending(st: Scan)
  {
    st.currentLabel.Some? && st.currentLabel.value != [] && !IsBlank(st.currentText)
  }

  /** The questions once the pending one, if any, is appended. */
  function Closed(st: Scan): seq<string>
  {
    if Pending(st) then st.questions + [Strip(st.currentText)] else st.questions
  }

  /** The text collected from one part: the part itself, or nothing when it is blank. */
  function Unblank(t: string): string
  {
    if IsBlank(t) then [] else t
  }

  /**
   * The loop variables after the first `i` parts, `i` being `2 * n` or
   * `2 * n + 1` (`n` labels met): the last label seen, stripped; the text
   * after it, or nothing when that text was blank; and the bodies of the
   * labels before it.
   */
  ghost function Scanned(parts: seq<string>, i: nat, n: nat): Scan
    requires i <= |parts| && (i == 2 * n || i == 2 * n + 1)
  {
    Scan(if n == 0 then None else Some(Strip(parts[2 * n - 1])),
         if i == 2 * n then [] else Unblank(parts[2 * n]),
         if n == 0 then [] else LabelledBodies(parts, n - 1))
  }

  /** With a label open, a question is pending exactly when the text collected is not blank. */
  lemma PendingUnlessBlank(st: Scan, lab: string, body: string)
    requires st.currentLabel == Some(lab) && lab != [] && st.currentText == Unblank(body)
    ensures Pending(st) == !IsBlank(body)
  {
  }

  /** The bodies of `n` labels extend those of `n - 1` by the body of label `n`. */
  lemma BodiesStep(parts: seq<string>, n: nat, qs: seq<string>, body: string)
    requires 1 <= n && 2 * n < |parts| && body == parts[2 * n] && qs == LabelledBodies(parts, n - 1)
    ensures LabelledBodies(parts, n) == qs + (if IsBlank(body) then [] else [Strip(body)])
  {
  }

  /** After the part following label `n`, closing gives the bodies of the first `n` labels. */
  lemma ClosedBodies(parts: seq<string>, n: nat)
    requires 2 * n < |parts|
    requires n >= 1 ==> !IsBlank(parts[2 * n - 1])
    ensures Closed(Scanned(parts, 2 * n + 1, n)) == (if n == 0 then [] else LabelledBodies(parts, n))
  {
    if n >= 1 {
      var st := Scanned(parts, 2 * n + 1, n);
      var body := parts[2 * n];
      PendingUnlessBlank(st, Strip(parts[2 * n - 1]), body);
      BodiesStep(parts, n, st.questions, body);
    }
  }

  /** Just after label `m`, at `k`, the loop holds that label, no text, and the earlier bodies. */
  lemma ScannedAfterLabel(parts: seq<string>, k: nat, m: nat)
    requires 1 <= m && k == 2 * m && k <= |parts|
    ensures Scanned(parts, k, m) == Scan(Some(Strip(parts[k - 1])), [], LabelledBodies(parts, m - 1))
  {
  }

  /** Label `n + 1`, at `i`, closes the body of label `n` and opens its own. */
  lemma ScanLabel(parts: seq<string>, i: nat, n: nat)
    requires i == 2 * n + 1 && i < |parts|
    requires n >= 1 ==> !IsBlank(parts[2 * n - 1])
    ensures Scanned(parts, i + 1, n + 1) == Scan(Some(Strip(parts[i])), [], Closed(Scanned(parts, i, n)))
  {
    var k, m := i + 1, n + 1;
    ScannedAfterLabel(parts, k, m);
    ClosedBodies(parts, n);
    if n == 0 {
      assert LabelledBodies(parts, 0) == [];
    }
  }

  /** The part after label `n`, at `i`, is collected unless it is blank. */
  lemma ScanText(parts: seq<string>, i: nat, n: nat)
    requires i == 2 * n && i < |parts|
    ensures var st := Scanned(parts, i, n);
      Scanned(parts, i + 1, n) == if IsBlank(parts[i]) then st else st.(currentText := st.currentText + parts[i])
  {
    assert [] + parts[i] == parts[i];
  }

  /** One pass of the loop body over `part`. */
  function Feed(st: Scan, part: string): Scan
  {
    if IsBlank(part) then st
    else if LabelAt(part, 0).Some? then Scan(Some(Strip(part)), [], Closed(st))
    else st.(currentText := st.currentText + part)
  }

  /** The loop variables after the loop body has run over all of `parts`. */
  function FeedAll(parts: seq<string>): Scan
  {
    if parts == [] then Scan(None, [], [])
    else Feed(FeedAll(parts[..|parts| - 1]), parts[|parts| - 1])
  }

  /** The loop variables after the first `i` parts. */
  ghost function Fed(parts: seq<string>, i: nat): Scan
    requires i <= |parts|
  {
    FeedAll(parts[..i])
  }

  /** Feeding one more part. */
  lemma FedSnoc(parts: seq<string>, i: nat)
    requires 1 <= i <= |parts|
    ensures Fed(parts, i) == Feed(Fed(parts, i - 1), parts[i - 1])
  {
    assert parts[..i][..i - 1] == parts[..i - 1];
  }

  /** Feeding label `n`, at `i - 1`, moves the loop from the state after label `n - 1`'s body. */
  lemma FeedLabelScans(parts: seq<string>, i: nat, n: nat)
    requires Alternates(parts) && 1 <= n && i == 2 * n && i <= |parts|
    requires Fed(parts, i - 1) == Scanned(parts, i - 1, n - 1)
    ensures Fed(parts, i) == Scanned(parts, i, n)
  {
    var j, m := i - 1, n - 1;
    FedSnoc(parts, i);
    PartAt(parts, j, m);
    if m >= 1 {
      PartAt(parts, 2 * m - 1, m - 1);
    }
    ScanLabel(parts, j, m);
  }

  /** Feeding the body of label `n`, at `i - 1`, moves the loop from the state after label `n`. */
  lemma FeedTextScans(parts: seq<string>, i: nat, n: nat)
    requires Alternates(parts) && i == 2 * n + 1 && i <= |parts|
    requires Fed(parts, i - 1) == Scanned(parts, i - 1, n)
    ensures Fed(parts, i) == Scanned(parts, i, n)
  {
    FedSnoc(parts, i);
    PartAt(parts, i - 1, n);
    ScanText(parts, i - 1, n);
  }

  /** Fed the first `i` parts of a label split, the loop holds what `Scanned` says. */
  lemma {:induction false} FeedAllScans(parts: seq<string>, i: nat, n: nat)
    requires Alternates(parts) && i <= |parts| && (i == 2 * n || i == 2 * n + 1)
    ensures Fed(parts, i) == Scanned(parts, i, n)
    decreases i, 1
  {
    if i == 0 {
      assert parts[..i] == [];
    } else if i == 2 * n {
      ScansThroughLabel(parts, i, n);
    } else {
      ScansThroughText(parts, i, n);
    }
  }

  lemma {:induction false} ScansThroughLabel(parts: seq<string>, i: nat, n: nat)
    requires Alternates(parts) && 1 <= n && i == 2 * n && i <= |parts|
    ensures Fed(parts, i) == Scanned(parts, i, n)
    decreases i, 0
  {
    var j, m := i - 1, n - 1;
    FeedAllScans(parts, j, m);
    FeedLabelScans(parts, i, n);
  }

  lemma {:induction false} ScansThroughText(parts: seq<string>, i: nat, n: nat)
    requires Alternates(parts) && i == 2 * n + 1 && i <= |parts|
    ensures Fed(parts, i) == Scanned(parts, i, n)
    decreases i, 0
  {
    FeedAllScans(parts, i - 1, n);
    FeedTextScans(parts, i, n);
  }

  /** Closing the loop's last question gives the bodies of all labels. */
  lemma FeedAllCollects(parts: seq<string>)
    requires Alternates(parts) && |parts| > 1
    ensures Closed(Fed(parts, |parts|)) == LabelledBodies(parts, |parts| / 2)
  {
    var n := |parts| / 2;
    FeedAllScans(parts, 2 * n + 1, n);
    PartAt(parts, 2 * n - 1, n - 1);
    ClosedBodies(parts, n);
  }

  /** The label loop of `split_questions`: one pass over the parts of the label split. */
  method CollectLabelled(parts: seq<string>) returns (questions: seq<string>)
    requires Alternates(parts) && |parts| > 1
    ensures questions == LabelledBodies(parts, |parts| / 2)
  {
    questions := [];
    var currentLabel: Option<string> := None;
    var currentText: string := [];
    var i := 0;
    while i < |parts|
      invariant 0 <= i <= |parts|
      invariant Scan(currentLabel, currentText, questions) == Fed(parts, i)
    {
      var part := parts[i];
      FedSnoc(parts, i + 1);
      if IsBlank(part) {
      } else if LabelAt(part, 0).Some? {
        if currentLabel.Some? && currentLabel.value != [] && !IsBlank(currentText) {
          questions := questions + [Strip(currentText)];
        }
        currentLabel := Some(Strip(part));
        currentText := [];
      } else {
        currentText := currentText + part;
      }
      i := i + 1;
    }
    FeedAllCollects(parts);
    if currentLabel.Some? && currentLabel.value != [] && !IsBlank(currentText) {
      questions := questions + [Strip(currentText)];
    }
  }

  /** `split_questions(raw)`. */
  method SplitQuestions(raw: string) returns (questions: seq<string>)
    ensures questions == QuestionsOf(raw)
  {
    if raw == [] {
      return [];
    }
    var text := Strip(raw);
    var parts := LabelSplit(text);
    if |parts| > 1 {
      LabelSplitStructure(text);
      questions := CollectLabelled(parts);
      return;
    }
    var lines := NonBlankStripped(SplitLines(text));
    if |lines| > 1 {
      return lines;
    }
    return [text];
  }
}
