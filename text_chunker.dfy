/**
 * `chunk_syllabus` of backend/processors/text_chunker.py: a syllabus text is
 * cut before every header `(Module|Unit|Chapter)\s+\d+` (any case).
 *
 * The pattern is a lookahead holding a capturing group, so `re.split`
 * returns, at every header, the empty-width cut and also the keyword the
 * group captured. The loop then glues each captured keyword, after a
 * space, onto the chunk that precedes the header. `LookaheadSplit` models
 * the split, `ChunkSyllabus` the loop, and `Chunks` states the result in
 * terms of the header positions.
 */
module TextChunker {
  import opened Wrappers
  import opened Text

  // ---------------------------------------------------------------------
  // The header pattern
  // ---------------------------------------------------------------------

  /** The lower-case word `kw` occurs at `p`, ignoring case. */
  predicate WordAt(s: string, p: nat, kw: string)
  {
    p + |kw| <= |s| && WordFrom(s, p, kw, 0)
  }

  /** The letters of `kw` from the `o`-th on agree with the text at `p`, ignoring case. */
  predicate WordFrom(s: string, p: nat, kw: string, o: nat)
    requires p + |kw| <= |s| && o <= |kw|
    decreases |kw| - o
  {
    o == |kw| || (LowerChar(s[p + o]) == kw[o] && WordFrom(s, p, kw, o + 1))
  }

  /** A word seen at `p` agrees with the text, ignoring case, letter by letter. */
  lemma {:induction false} WordFromChar(s: string, p: nat, kw: string, o: nat, t: nat)
    requires p + |kw| <= |s| && o <= |kw|
    ensures WordFrom(s, p, kw, o) && o <= t < |kw| ==> LowerChar(s[p + t]) == kw[t]
    decreases |kw| - o
  {
    if o < |kw| && o < t {
      WordFromChar(s, p, kw, o + 1, t);
    }
  }

  /** A word seen at `p` agrees with the text, ignoring case, at offset `t`. */
  lemma WordAtSpan(s: string, p: nat, kw: string, t: nat)
    ensures WordAt(s, p, kw) ==> p + |kw| <= |s|
    ensures WordAt(s, p, kw) && t < |kw| ==> LowerChar(s[p + t]) == kw[t]
  {
    if p + |kw| <= |s| {
      WordFromChar(s, p, kw, 0, t);
    }
  }

  /**
   * The length of the keyword of the alternation `Module|Unit|Chapter` that
   * matches at `p`, tried in that order.
   */
  function KeywordAt(s: string, p: nat): Option<nat>
  {
    if WordAt(s, p, "module") then Some(6)
    else if WordAt(s, p, "unit") then Some(4)
    else if WordAt(s, p, "chapter") then Some(7)
    else None
  }

  /**
   * The position of the first digit of the header that starts at `p`, if
   * one does: a keyword, one or more whitespace characters, a digit. The
   * greedy `\s+` never needs to give anything back, since a digit is not
   * whitespace.
   */
  function HeaderAt(s: string, p: nat): (d: Option<nat>)
    requires p <= |s|
    ensures d.Some? ==> p < d.value < |s| && IsDigit(s[d.value])
  {
    match KeywordAt(s, p)
    case None => None
    case Some(n) =>
      if p + n <= |s| then
        var w := RunEnd(s, p + n, PySpace);
        if w > p + n && w < |s| && IsDigit(s[w]) then Some(w) else None
      else None
  }

  /** A header is a keyword, then whitespace up to its first digit. */
  lemma HeaderParts(s: string, p: nat)
    requires p <= |s| && HeaderAt(s, p).Some?
    ensures KeywordAt(s, p).Some? && p + KeywordAt(s, p).value < HeaderAt(s, p).value
    ensures forall m :: p + KeywordAt(s, p).value <= m < HeaderAt(s, p).value ==> IsPySpace(s[m])
  {
    RunEndSpan(s, p + KeywordAt(s, p).value, PySpace);
  }

  /** The header positions at or after `i`, in increasing order. */
  function HeadersFrom(s: string, i: nat): (ps: seq<nat>)
    requires i <= |s|
    ensures forall j :: 0 <= j < |ps| ==> i <= ps[j] < |s|
    ensures forall j, l :: 0 <= j < l < |ps| ==> ps[j] < ps[l]
    decreases |s| - i
  {
    if i == |s| then []
    else if HeaderAt(s, i).Some? then [i] + HeadersFrom(s, i + 1)
    else HeadersFrom(s, i + 1)
  }

  /** The positions where the lookahead matches: the starts of all headers. */
  function Headers(s: string): seq<nat>
  {
    HeadersFrom(s, 0)
  }

  /** Exactly the positions where a header starts are listed. */
  lemma {:induction false} HeadersFromExact(s: string, i: nat, p: nat)
    requires i <= |s|
    ensures p in HeadersFrom(s, i) <==> i <= p < |s| && HeaderAt(s, p).Some?
    decreases |s| - i
  {
    if i < |s| {
      HeadersFromExact(s, i + 1, p);
    }
  }

  /** The lookahead matches at `p` iff a header starts at `p`. */
  lemma HeadersExact(s: string, p: nat)
    ensures p in Headers(s) <==> p < |s| && HeaderAt(s, p).Some?
  {
    HeadersFromExact(s, 0, p);
  }

  /** Every listed position starts a header. */
  lemma HeaderListed(s: string, i: nat)
    requires i < |Headers(s)|
    ensures HeaderAt(s, Headers(s)[i]).Some?
  {
    HeadersExact(s, Headers(s)[i]);
  }

  // ---------------------------------------------------------------------
  // Facts about the pattern
  // ---------------------------------------------------------------------

  /** The three keywords start with different letters, so at most one matches. */
  lemma KeywordFirstLetter(s: string, p: nat)
    requires KeywordAt(s, p).Some?
    ensures p < |s|
    ensures KeywordAt(s, p) == Some(6) <==> LowerChar(s[p]) == 'm'
    ensures KeywordAt(s, p) == Some(4) <==> LowerChar(s[p]) == 'u'
    ensures KeywordAt(s, p) == Some(7) <==> LowerChar(s[p]) == 'c'
  {
    WordAtSpan(s, p, "module", 0);
    WordAtSpan(s, p, "unit", 0);
    WordAtSpan(s, p, "chapter", 0);
  }

  /**
   * No header starts inside another one: not in its keyword, not in its
   * whitespace and not at its first digit.
   */
  lemma HeaderClear(s: string, p: nat, q: nat)
    requires p < q <= |s| && HeaderAt(s, p).Some? && q <= HeaderAt(s, p).value
    ensures HeaderAt(s, q).None?
  {
    HeaderParts(s, p);
    if q < p + KeywordAt(s, p).value {
      KeywordClear(s, p, q);
    } else if KeywordAt(s, q).Some? {
      assert IsPySpace(s[q]) || IsDigit(s[q]);
      KeywordFirstLetter(s, q);
    }
  }

  /** No keyword starts inside another one. */
  lemma KeywordClear(s: string, p: nat, q: nat)
    requires KeywordAt(s, p).Some? && p < q < p + KeywordAt(s, p).value
    ensures KeywordAt(s, q).None?
  {
    var n := KeywordAt(s, p).value;
    var kw := if n == 6 then "module" else if n == 4 then "unit" else "chapter";
    assert WordAt(s, p, kw);
    WordAtSpan(s, p, kw, q - p);
    WordAtSpan(s, p, kw, q - p + 1);
    WordAtSpan(s, q, "module", 0);
    WordAtSpan(s, q, "unit", 0);
    WordAtSpan(s, q, "unit", 1);
    WordAtSpan(s, q, "chapter", 0);
  }

  /** Two headers are apart: the later one starts after the first digit of the earlier one. */
  lemma HeadersApart(s: string, p: nat, q: nat)
    requires p < q <= |s|
    requires HeaderAt(s, p).Some? && HeaderAt(s, q).Some?
    ensures HeaderAt(s, p).value < q
  {
    if q <= HeaderAt(s, p).value {
      HeaderClear(s, p, q);
    }
  }

  /** A word is seen the same in a slice as in the whole text, when it fits in the slice. */
  lemma {:induction false} WordFromInSlice(s: string, a: nat, b: nat, i: nat, kw: string, o: nat)
    requires a <= b <= |s| && a + i + |kw| <= b && o <= |kw|
    ensures WordFrom(s[a..b], i, kw, o) <==> WordFrom(s, a + i, kw, o)
    decreases |kw| - o
  {
    if o < |kw| {
      assert s[a..b][i + o] == s[a + i + o];
      WordFromInSlice(s, a, b, i, kw, o + 1);
    }
  }

  /** A word seen in a slice is seen at the same place in the whole text, and back when it fits. */
  lemma WordInSlice(s: string, a: nat, b: nat, i: nat, kw: string)
    requires a <= b <= |s| && i <= b - a
    ensures WordAt(s[a..b], i, kw) <==> a + i + |kw| <= b && WordAt(s, a + i, kw)
  {
    if a + i + |kw| <= b {
      WordFromInSlice(s, a, b, i, kw, 0);
    }
  }

  /** A keyword seen in a slice is the keyword seen in the whole text, and back when it fits. */
  lemma KeywordInSlice(s: string, a: nat, b: nat)
    requires a <= b <= |s|
    ensures KeywordAt(s[a..b], 0).Some? ==> KeywordAt(s, a) == KeywordAt(s[a..b], 0)
    ensures KeywordAt(s, a).Some? && a + KeywordAt(s, a).value <= b ==>
              KeywordAt(s[a..b], 0) == KeywordAt(s, a)
  {
    WordInSlice(s, a, b, 0, "module");
    WordInSlice(s, a, b, 0, "unit");
    WordInSlice(s, a, b, 0, "chapter");
  }

  /** A header at the start of a slice is a header of the whole text. */
  lemma HeaderOfSlice(s: string, a: nat, b: nat)
    requires a <= b <= |s|
    ensures HeaderAt(s[a..b], 0).Some? ==> HeaderAt(s, a) == Some(HeaderAt(s[a..b], 0).value + a)
  {
    var t := s[a..b];
    if HeaderAt(t, 0).Some? {
      HeaderParts(t, 0);
      KeywordInSlice(s, a, b);
      var n := KeywordAt(t, 0).value;
      RunEndInSlice(s, a, b, n, PySpace);
      assert t[HeaderAt(t, 0).value] == s[HeaderAt(t, 0).value + a];
    }
  }

  /** A header whose first digit lies inside a slice is a header of the slice. */
  lemma HeaderInSlice(s: string, a: nat, b: nat)
    requires a <= b <= |s|
    requires HeaderAt(s, a).Some? && HeaderAt(s, a).value < b
    ensures HeaderAt(s[a..b], 0) == Some(HeaderAt(s, a).value - a)
  {
    var t := s[a..b];
    HeaderParts(s, a);
    KeywordInSlice(s, a, b);
    var n := KeywordAt(s, a).value;
    var w := HeaderAt(s, a).value;
    RunEndInWhole(s, a, b, n, PySpace);
    assert t[w - a] == s[w];
  }

  // ---------------------------------------------------------------------
  // re.split with the lookahead pattern
  // ---------------------------------------------------------------------

  /** The text between the cut before header `i` (or the start) and the next cut (or the end). */
  function Piece(s: string, i: nat): string
    requires i <= |Headers(s)|
  {
    var ps := Headers(s);
    var a := if i == 0 then 0 else ps[i - 1];
    var b := if i < |ps| then ps[i] else |s|;
    s[a..b]
  }

  /** The keyword of header `i`, as it is written in the text. */
  function KeywordOf(s: string, i: nat): string
    requires i < |Headers(s)|
  {
    var p := Headers(s)[i];
    HeaderListed(s, i);
    HeaderParts(s, p);
    s[p..p + KeywordAt(s, p).value]
  }

  /**
   * `re.split(pattern, text, flags=re.IGNORECASE)`: the text cut at every
   * header, with the keyword captured by the group after each cut.
   */
  function LookaheadSplit(s: string): (parts: seq<string>)
    ensures |parts| == 2 * |Headers(s)| + 1
  {
    var k := |Headers(s)|;
    seq(2 * k + 1, j requires 0 <= j < 2 * k + 1 =>
      if j % 2 == 0 then Piece(s, j / 2) else KeywordOf(s, j / 2))
  }

  /** Every piece after the first starts with the header at its cut, up to that header's first digit. */
  lemma PieceStartsWithHeader(s: string, i: nat)
    requires 1 <= i <= |Headers(s)|
    ensures HeaderAt(s, Headers(s)[i - 1]).Some?
    ensures HeaderAt(Piece(s, i), 0) == Some(HeaderAt(s, Headers(s)[i - 1]).value - Headers(s)[i - 1])
  {
    var ps := Headers(s);
    var a := ps[i - 1];
    var b := if i < |ps| then ps[i] else |s|;
    HeaderListed(s, i - 1);
    if i < |ps| {
      HeaderListed(s, i);
      HeadersApart(s, a, b);
    }
    HeaderInSlice(s, a, b);
    assert Piece(s, i) == s[a..b];
  }

  /**
   * Part `2i` of the split is piece `i`, and `re.match(pattern, part)`
   * succeeds on it exactly when it follows a cut.
   */
  lemma SplitPiece(s: string, i: nat)
    requires i <= |Headers(s)|
    ensures 2 * i < |LookaheadSplit(s)| && LookaheadSplit(s)[2 * i] == Piece(s, i)
    ensures HeaderAt(Piece(s, i), 0).Some? <==> i > 0
  {
    SplitPieceAt(s, i);
    PieceIsHeader(s, i);
  }

  /** Part `2i` of the split is piece `i`. */
  lemma SplitPieceAt(s: string, i: nat)
    requires i <= |Headers(s)|
    ensures 2 * i < |LookaheadSplit(s)| && LookaheadSplit(s)[2 * i] == Piece(s, i)
  {
    assert (2 * i) % 2 == 0 && (2 * i) / 2 == i;
  }

  /** Part `2i + 1` of the split is the keyword of header `i`. */
  lemma SplitKeywordAt(s: string, i: nat)
    requires i < |Headers(s)|
    ensures 2 * i + 1 < |LookaheadSplit(s)| && LookaheadSplit(s)[2 * i + 1] == KeywordOf(s, i)
  {
    assert (2 * i + 1) % 2 == 1 && (2 * i + 1) / 2 == i;
  }

  /** `re.match` accepts piece `i` exactly when it follows a cut. */
  lemma PieceIsHeader(s: string, i: nat)
    requires i <= |Headers(s)|
    ensures HeaderAt(Piece(s, i), 0).Some? <==> i > 0
  {
    var ps := Headers(s);
    if i == 0 {
      var b := if 0 < |ps| then ps[0] else |s|;
      assert Piece(s, 0) == s[0..b];
      HeaderOfSlice(s, 0, b);
      HeadersExact(s, 0);
      if 0 < |ps| && ps[0] == 0 {
        assert Piece(s, 0) == [];
      } else {
        assert forall l :: 0 <= l < |ps| ==> ps[l] >= ps[0];
        assert 0 !in ps;
      }
    } else {
      PieceStartsWithHeader(s, i);
    }
  }

  /** Part `2i + 1` of the split is the keyword of header `i`, on which `re.match` fails. */
  lemma SplitKeyword(s: string, i: nat)
    requires i < |Headers(s)|
    ensures 2 * i + 1 < |LookaheadSplit(s)| && LookaheadSplit(s)[2 * i + 1] == KeywordOf(s, i)
    ensures HeaderAt(KeywordOf(s, i), 0).None?
  {
    SplitKeywordAt(s, i);
    var p := Headers(s)[i];
    HeaderListed(s, i);
    HeaderParts(s, p);
    var n := KeywordAt(s, p).value;
    HeaderOfSlice(s, p, p + n);
  }

  // ---------------------------------------------------------------------
  // The chunks
  // ---------------------------------------------------------------------

  /**
   * The text a chunk of the split starts from: the first piece after a
   * space, any later piece as it is.
   */
  function OpenPart(parts: seq<string>, m: nat): string
    requires 2 * m < |parts|
  {
    if m == 0 then " " + PiecePart(parts, 0) else PiecePart(parts, m)
  }

  /**
   * The text chunk `m` of a split into `2k + 1` parts is stripped from: its
   * opening text, a space and the keyword captured at the next cut; the
   * last chunk has no cut after it.
   */
  function PartsText(parts: seq<string>, m: nat): string
    requires |parts| % 2 == 1 && m <= |parts| / 2
  {
    if m < |parts| / 2 then OpenPart(parts, m) + " " + KeywordPart(parts, m) else OpenPart(parts, m)
  }

  /** The texts of the first `n` chunks of a split into `2k + 1` parts. */
  function TextsUpTo(parts: seq<string>, n: nat): (ts: seq<string>)
    requires |parts| % 2 == 1 && n <= |parts| / 2 + 1
    ensures |ts| == n
  {
    if n == 0 then [] else TextsUpTo(parts, n - 1) + [PartsText(parts, n - 1)]
  }

  /** Text `i` of a split is the one its piece `i` opens. */
  lemma {:induction false} TextsUpToAt(parts: seq<string>, n: nat, i: nat)
    requires |parts| % 2 == 1 && i < n <= |parts| / 2 + 1
    ensures TextsUpTo(parts, n)[i] == PartsText(parts, i)
  {
    if i < n - 1 {
      TextsUpToAt(parts, n - 1, i);
    }
    SnocAt(TextsUpTo(parts, n - 1), PartsText(parts, n - 1), i);
  }

  /** An element of a sequence extended by one element. */
  lemma SnocAt<T>(xs: seq<T>, x: T, i: nat)
    requires i <= |xs|
    ensures (xs + [x])[i] == if i < |xs| then xs[i] else x
  {
  }

  /** Every text stripped, in order. */
  function StripAll(ts: seq<string>): (cs: seq<string>)
    ensures |cs| == |ts|
  {
    if ts == [] then [] else StripAll(ts[..|ts| - 1]) + [Strip(ts[|ts| - 1])]
  }

  /** Element `i` of `StripAll(ts)` is `ts[i]` stripped. */
  lemma {:induction false} StripAllAt(ts: seq<string>, i: nat)
    requires i < |ts|
    ensures StripAll(ts)[i] == Strip(ts[i])
  {
    var init := ts[..|ts| - 1];
    if i < |ts| - 1 {
      StripAllAt(init, i);
      assert init[i] == ts[i];
    }
    SnocAt(StripAll(init), Strip(ts[|ts| - 1]), i);
  }

  /** Stripping one more text appends it stripped. */
  lemma StripAllSnoc(ts: seq<string>, t: string)
    ensures StripAll(ts + [t]) == StripAll(ts) + [Strip(t)]
  {
    assert (ts + [t])[..|ts|] == ts;
  }

  /** The chunks of a split into `2k + 1` parts: the texts of its pieces, stripped. */
  function ChunksOfParts(parts: seq<string>): seq<string>
    requires |parts| % 2 == 1
  {
    StripAll(TextsUpTo(parts, |parts| / 2 + 1))
  }

  /** The result of `chunk_syllabus`. */
  function Chunks(s: string): seq<string>
  {
    ChunksOfParts(LookaheadSplit(s))
  }

  /**
   * The state of the loop of `chunk_syllabus`, with each chunk it has
   * closed kept as the text it stripped, and the text being gathered.
   */
  datatype Gathered = Gathered(texts: seq<string>, temp: string)

  /**
   * One turn of the loop on a part: a part the header pattern matches
   * (`cut`) closes the text gathered so far, when there is any, and opens
   * a new one; any other part is appended after a space.
   */
  function GatherStep(st: Gathered, part: string, cut: bool): Gathered
  {
    if cut then
      Gathered(if st.temp != "" then st.texts + [st.temp] else st.texts, part)
    else
      Gathered(st.texts, st.temp + " " + part)
  }

  /** The state of the loop after its first `j` turns, where `cuts[j]` says whether part `j` matches. */
  ghost function GatheredAfter(parts: seq<string>, cuts: seq<bool>, j: nat): Gathered
    requires |cuts| == |parts| && j <= |parts|
  {
    if j == 0 then Gathered([], "") else GatherStep(GatheredAfter(parts, cuts, j - 1), parts[j - 1], cuts[j - 1])
  }

  /** Whether `re.match` accepts each part of a split. */
  ghost function Cuts(parts: seq<string>): (cuts: seq<bool>)
    ensures |cuts| == |parts|
  {
    seq(|parts|, j requires 0 <= j < |parts| => HeaderAt(parts[j], 0).Some?)
  }

  /** Piece `m` of a split into pieces and captured keywords. */
  function PiecePart<T>(parts: seq<T>, m: nat): T
    requires 2 * m < |parts|
  {
    parts[2 * m]
  }

  /** The keyword captured after piece `m` of a split. */
  function KeywordPart<T>(parts: seq<T>, m: nat): T
    requires 2 * m + 1 < |parts|
  {
    parts[2 * m + 1]
  }

  /**
   * `re.match` accepts the pieces after the first, and neither the first
   * piece nor a captured keyword.
   */
  ghost predicate CutsAlternate(cuts: seq<bool>)
  {
    && |cuts| % 2 == 1
    && !cuts[0]
    && (forall m :: 0 < m && 2 * m < |cuts| ==> PiecePart(cuts, m))
    && (forall m :: 0 <= m && 2 * m + 1 < |cuts| ==> !KeywordPart(cuts, m))
  }

  /**
   * After the turn on piece `m` the loop has closed the texts of the first
   * `m` chunks and gathers the opening text of chunk `m`.
   */
  lemma {:induction false} GatheredAtPiece(parts: seq<string>, cuts: seq<bool>, m: nat)
    requires |cuts| == |parts| && CutsAlternate(cuts) && 2 * m < |parts|
    ensures GatheredAfter(parts, cuts, 2 * m + 1) == Gathered(TextsUpTo(parts, m), OpenPart(parts, m))
  {
    if m == 0 {
      assert "" + " " + parts[0] == " " + parts[0];
    } else {
      GatheredAtPiece(parts, cuts, m - 1);
      GatheredNextPiece(parts, cuts, m);
    }
  }

  /** The turns on keyword `m - 1` and piece `m` close chunk `m - 1` and open chunk `m`. */
  lemma GatheredNextPiece(parts: seq<string>, cuts: seq<bool>, m: nat)
    requires |cuts| == |parts| && CutsAlternate(cuts) && 0 < m && 2 * m < |parts|
    requires GatheredAfter(parts, cuts, 2 * m - 1) == Gathered(TextsUpTo(parts, m - 1), OpenPart(parts, m - 1))
    ensures GatheredAfter(parts, cuts, 2 * m + 1) == Gathered(TextsUpTo(parts, m), OpenPart(parts, m))
  {
    var j := 2 * (m - 1) + 1;
    assert !KeywordPart(cuts, m - 1) && PiecePart(cuts, m);
    var st := GatheredAfter(parts, cuts, j);
    var keyword := KeywordPart(parts, m - 1);
    assert m - 1 < |parts| / 2;
    var text := st.temp + " " + keyword;
    assert text == PartsText(parts, m - 1);
    assert TextsUpTo(parts, m) == st.texts + [text];
    assert GatheredAfter(parts, cuts, j + 1) == GatherStep(st, keyword, false);
    assert GatheredAfter(parts, cuts, j + 2) == GatherStep(GatherStep(st, keyword, false), PiecePart(parts, m), true);
    GatherKeywordThenPiece(st, keyword, PiecePart(parts, m));
  }

  /** A keyword followed by a piece closes the gathered text, with the keyword, and opens the piece. */
  lemma GatherKeywordThenPiece(st: Gathered, keyword: string, piece: string)
    ensures GatherStep(GatherStep(st, keyword, false), piece, true)
      == Gathered(st.texts + [st.temp + " " + keyword], piece)
  {
    assert |st.temp + " " + keyword| > 0;
  }

  /** The loop of `chunk_syllabus` over the parts of the split. */
  method CollectChunks(parts: seq<string>) returns (chunks: seq<string>)
    requires |parts| % 2 == 1 && CutsAlternate(Cuts(parts))
    ensures chunks == ChunksOfParts(parts)
  {
    ghost var cuts := Cuts(parts);
    chunks := [];
    var temp := "";
    for j := 0 to |parts|
      invariant chunks == StripAll(GatheredAfter(parts, cuts, j).texts)
      invariant temp == GatheredAfter(parts, cuts, j).temp
    {
      chunks, temp := GatherTurn(GatheredAfter(parts, cuts, j).texts, chunks, temp, parts[j]);
    }
    CutsNotEmpty(parts);
    GatheredAtEnd(parts, cuts);
    if temp != "" {
      chunks := chunks + [Strip(temp)];
    }
  }

  /**
   * One turn of the loop of `chunk_syllabus` on `part`, where `chunks`
   * holds the closed `texts` stripped.
   */
  method GatherTurn(ghost texts: seq<string>, chunks: seq<string>, temp: string, part: string)
    returns (chunks': seq<string>, temp': string)
    requires chunks == StripAll(texts)
    ensures chunks' == StripAll(GatherStep(Gathered(texts, temp), part, HeaderAt(part, 0).Some?).texts)
    ensures temp' == GatherStep(Gathered(texts, temp), part, HeaderAt(part, 0).Some?).temp
  {
    chunks', temp' := chunks, temp;
    if HeaderAt(part, 0).Some? {
      if temp != "" {
        StripAllSnoc(texts, temp);
        chunks' := chunks + [Strip(temp)];
      }
      temp' := part;
    } else {
      temp' := temp + " " + part;
    }
  }

  /** A part the header pattern matches is not empty. */
  lemma CutsNotEmpty(parts: seq<string>)
    ensures forall j :: 0 <= j < |parts| && Cuts(parts)[j] ==> parts[j] != []
  {
  }

  /**
   * After its last turn the loop has closed the texts of all chunks but
   * the last and gathers the text of the last one.
   */
  lemma GatheredAtEnd(parts: seq<string>, cuts: seq<bool>)
    requires |cuts| == |parts| && CutsAlternate(cuts)
    requires forall j :: 0 <= j < |parts| && cuts[j] ==> parts[j] != []
    ensures GatheredAfter(parts, cuts, |parts|).temp != ""
    ensures StripAll(GatheredAfter(parts, cuts, |parts|).texts) + [Strip(GatheredAfter(parts, cuts, |parts|).temp)]
      == ChunksOfParts(parts)
  {
    var k := |parts| / 2;
    assert |parts| == 2 * k + 1;
    GatheredAtPiece(parts, cuts, k);
    assert k > 0 ==> PiecePart(cuts, k);
    StripAllSnoc(TextsUpTo(parts, k), OpenPart(parts, k));
  }

  /** On the split of any text `re.match` accepts exactly the pieces after the first. */
  lemma SplitAlternates(s: string)
    ensures |LookaheadSplit(s)| % 2 == 1 && CutsAlternate(Cuts(LookaheadSplit(s)))
  {
    var parts := LookaheadSplit(s);
    var cuts := Cuts(parts);
    SplitPiece(s, 0);
    forall m | 0 < m && 2 * m < |cuts|
      ensures PiecePart(cuts, m)
    {
      SplitPiece(s, m);
    }
    forall m | 0 <= m && 2 * m + 1 < |cuts|
      ensures !KeywordPart(cuts, m)
    {
      SplitKeyword(s, m);
    }
  }

  /** `chunk_syllabus`: split the text at its headers, then collect the chunks. */
  method ChunkSyllabus(text: string) returns (chunks: seq<string>)
    ensures chunks == Chunks(text)
    ensures |chunks| == |Headers(text)| + 1
    ensures forall i :: 0 <= i < |chunks| ==> IsStripped(chunks[i])
  {
    var splits := LookaheadSplit(text);
    SplitAlternates(text);
    chunks := CollectChunks(splits);
    ChunkCount(text);
    chunks := if chunks != [] then chunks else [text];
  }

  /**
   * The text chunk `i` is stripped from: piece `i` (after a space when it
   * is the first), then a space and the keyword captured at header `i`.
   */
  function ChunkText(s: string, i: nat): string
    requires i <= |Headers(s)|
  {
    var open := if i == 0 then " " + Piece(s, 0) else Piece(s, i);
    if i < |Headers(s)| then open + " " + KeywordOf(s, i) else open
  }

  /** The parts of the split give chunk `i` the text of piece `i` and keyword `i`. */
  lemma PartsTextOfSplit(s: string, i: nat)
    requires i <= |Headers(s)|
    ensures |LookaheadSplit(s)| / 2 == |Headers(s)|
    ensures PartsText(LookaheadSplit(s), i) == ChunkText(s, i)
  {
    SplitPieceAt(s, i);
    if i < |Headers(s)| {
      SplitKeywordAt(s, i);
    }
  }

  /** Chunk `i` of a text, in terms of its pieces and captured keywords. */
  lemma ChunkOfText(s: string, i: nat)
    requires i <= |Headers(s)|
    ensures i < |Chunks(s)| && Chunks(s)[i] == Strip(ChunkText(s, i))
  {
    var parts := LookaheadSplit(s);
    PartsTextOfSplit(s, i);
    var texts := TextsUpTo(parts, |parts| / 2 + 1);
    TextsUpToAt(parts, |parts| / 2 + 1, i);
    StripAllAt(texts, i);
    StripSame(texts[i], ChunkText(s, i));
  }

  /** Equal texts strip alike. */
  lemma StripSame(x: string, y: string)
    requires x == y
    ensures Strip(x) == Strip(y)
  {
  }

  /** There is one leading chunk and one chunk per header, and every chunk is stripped. */
  lemma ChunkCount(s: string)
    ensures |Chunks(s)| == |Headers(s)| + 1
    ensures forall i :: 0 <= i < |Chunks(s)| ==> IsStripped(Chunks(s)[i])
  {
    assert |LookaheadSplit(s)| / 2 == |Headers(s)|;
    forall i | 0 <= i < |Chunks(s)|
      ensures IsStripped(Chunks(s)[i])
    {
      ChunkOfText(s, i);
    }
  }

  /** A text without a header is one chunk, the whole text stripped. */
  lemma NoHeaderOneChunk(s: string)
    requires Headers(s) == []
    ensures Chunks(s) == [Strip(s)]
  {
    ChunkCount(s);
    ChunkOfText(s, 0);
    assert Piece(s, 0) == s;
    assert ChunkText(s, 0) == " " + s;
    assert (" " + s)[1..] == s;
    StripAfterSpace(" " + s, 1);
  }

  /** Every chunk after the first starts with its header: keyword, whitespace and digit. */
  lemma ChunkStartsWithHeader(s: string, i: nat)
    requires 1 <= i <= |Headers(s)|
    ensures HeaderAt(Chunks(s)[i], 0) == HeaderAt(Piece(s, i), 0)
    ensures StartsWith(Chunks(s)[i], KeywordOf(s, i - 1))
  {
    PieceStartsWithHeader(s, i);
    ChunkOfText(s, i);
    var piece := Piece(s, i);
    var y := ChunkText(s, i);
    assert y[..|piece|] == piece;
    StripKeepsHeader(y, piece);
    ChunkKeyword(s, i, Strip(y), y);
  }

  /**
   * Stripping a text that starts with a header keeps the header in place
   * and only cuts the text's end.
   */
  lemma StripKeepsHeader(y: string, piece: string)
    requires StartsWith(y, piece) && HeaderAt(piece, 0).Some?
    ensures HeaderAt(Strip(y), 0) == HeaderAt(piece, 0)
    ensures HeaderAt(piece, 0).value < |Strip(y)| <= |y| && Strip(y) == y[..|Strip(y)|]
  {
    var w := HeaderAt(piece, 0).value;
    HeaderParts(piece, 0);
    KeywordFirstLetter(piece, 0);
    assert y[0..|piece|] == piece;
    HeaderOfSlice(y, 0, |piece|);
    assert y[w] == piece[w];
    StripFromStart(y, w);
    var c := Strip(y);
    HeaderInSlice(y, 0, |c|);
    assert c == y[0..|c|];
  }

  /** The first letters of chunk `i` are the keyword of header `i - 1`. */
  lemma ChunkKeyword(s: string, i: nat, c: string, y: string)
    requires 1 <= i <= |Headers(s)|
    requires StartsWith(y, Piece(s, i)) && HeaderAt(Piece(s, i), 0).Some?
    requires HeaderAt(Piece(s, i), 0).value < |c| <= |y| && c == y[..|c|]
    ensures StartsWith(c, KeywordOf(s, i - 1))
  {
    var piece := Piece(s, i);
    var p := Headers(s)[i - 1];
    HeaderListed(s, i - 1);
    HeaderParts(s, p);
    PieceStartsWithHeader(s, i);
    var n := KeywordAt(s, p).value;
    assert piece[..n] == s[p..p + n];
    assert c[..n] == piece[..n];
  }

  /**
   * The capture-group quirk: every chunk but the last ends with the
   * keyword of the header that follows it.
   */
  lemma ChunkEndsWithNextKeyword(s: string, i: nat)
    requires i < |Headers(s)|
    ensures |KeywordOf(s, i)| <= |Chunks(s)[i]|
    ensures Chunks(s)[i][|Chunks(s)[i]| - |KeywordOf(s, i)|..] == KeywordOf(s, i)
  {
    ChunkOfText(s, i);
    var kw := KeywordOf(s, i);
    KeywordStripped(s, i);
    var x := (if i == 0 then " " + Piece(s, 0) else Piece(s, i)) + " ";
    assert ChunkText(s, i) == x + kw;
    StripSame(ChunkText(s, i), x + kw);
    StripKeepsEnd(x, kw);
  }

  /** Stripping a text that ends with a stripped word keeps the word at its end. */
  lemma StripKeepsEnd(x: string, kw: string)
    requires kw != [] && IsStripped(kw)
    ensures |kw| <= |Strip(x + kw)| && Strip(x + kw)[|Strip(x + kw)| - |kw|..] == kw
  {
    var y := x + kw;
    assert y[|x|] == kw[0];
    assert y[|y| - 1] == kw[|kw| - 1];
    StripToEnd(y, |x|);
    var c := Strip(y);
    assert c[|c| - |kw|..] == y[|y| - |kw|..] == kw;
  }

  /** A captured keyword is a word of letters: neither empty nor edged with whitespace. */
  lemma KeywordStripped(s: string, i: nat)
    requires i < |Headers(s)|
    ensures KeywordOf(s, i) != [] && IsStripped(KeywordOf(s, i))
  {
    var p := Headers(s)[i];
    HeaderListed(s, i);
    HeaderParts(s, p);
    KeywordFirstLetter(s, p);
    var e := KeywordAt(s, p).value;
    var word := if e == 6 then "module" else if e == 4 then "unit" else "chapter";
    assert WordAt(s, p, word);
    WordAtSpan(s, p, word, e - 1);
    assert KeywordOf(s, i)[e - 1] == s[p + (e - 1)];
  }
}
