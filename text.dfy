/**
 * Characters and strings as the backend (Python) and the frontend
 * (JavaScript) see them: the character classes their regular expressions
 * use, ASCII case mapping, `str.strip`, `str.splitlines`, prefix and
 * substring tests, `" ".join`, and the maximal runs of a character class
 * (what `re.findall` of `[class]+` returns, and what a split on the
 * complement leaves once its empty fragments are dropped).
 *
 * Case mapping and the letter and digit classes are ASCII only; the
 * whitespace and line-break classes list the exact code points of the
 * language they come from.
 */
module Text {

  datatype CharClass =
    | LowerAlnum        // [a-z0-9]
    | AsciiLetter       // [a-zA-Z]
    | Digit             // \d
    | PySpace           // Python's \s, str.isspace() and str.strip()
    | JsSpace           // JavaScript's \s
    | LineBreak         // the line boundaries of Python's str.splitlines()
    | Not(of: CharClass)

  predicate IsUpper(c: char) { 'A' <= c <= 'Z' }

  predicate IsLower(c: char) { 'a' <= c <= 'z' }

  predicate IsDigit(c: char) { '0' <= c <= '9' }

  predicate IsPySpace(c: char)
  {
    var n := c as int;
    9 <= n <= 13 || 28 <= n <= 32 || n == 0x85 || n == 0xA0 || n == 0x1680 ||
    0x2000 <= n <= 0x200A || n == 0x2028 || n == 0x2029 || n == 0x202F ||
    n == 0x205F || n == 0x3000
  }

  predicate IsJsSpace(c: char)
  {
    var n := c as int;
    9 <= n <= 13 || n == 32 || n == 0xA0 || n == 0x1680 ||
    0x2000 <= n <= 0x200A || n == 0x2028 || n == 0x2029 || n == 0x202F ||
    n == 0x205F || n == 0x3000 || n == 0xFEFF
  }

  predicate IsLineBreak(c: char)
  {
    var n := c as int;
    10 <= n <= 13 || 28 <= n <= 30 || n == 0x85 || n == 0x2028 || n == 0x2029
  }

  predicate In(c: char, k: CharClass)
    decreases k
  {
    match k
    case LowerAlnum => IsLower(c) || IsDigit(c)
    case AsciiLetter => IsLower(c) || IsUpper(c)
    case Digit => IsDigit(c)
    case PySpace => IsPySpace(c)
    case JsSpace => IsJsSpace(c)
    case LineBreak => IsLineBreak(c)
    case Not(k') => !In(c, k')
  }

  // ---------------------------------------------------------------------
  // Case mapping
  // ---------------------------------------------------------------------

  function LowerChar(c: char): char
  {
    if IsUpper(c) then (c as int + 32) as char else c
  }

  function UpperChar(c: char): char
  {
    if IsLower(c) then (c as int - 32) as char else c
  }

  /** `str.lower()` / `String.prototype.toLowerCase()`, on ASCII letters. */
  function Lower(s: string): string
  {
    seq(|s|, i requires 0 <= i < |s| => LowerChar(s[i]))
  }

  /** `str.upper()`, on ASCII letters. */
  function Upper(s: string): string
  {
    seq(|s|, i requires 0 <= i < |s| => UpperChar(s[i]))
  }

  predicate NoUpper(s: string)
  {
    forall i :: 0 <= i < |s| ==> !IsUpper(s[i])
  }

  /** Lower-casing leaves no upper-case letter and is idempotent. */
  lemma LowerIdempotent(s: string)
    ensures NoUpper(Lower(s))
    ensures Lower(Lower(s)) == Lower(s)
    ensures NoUpper(s) ==> Lower(s) == s
  {
  }

  // ---------------------------------------------------------------------
  // Runs of a character class
  // ---------------------------------------------------------------------

  /** The end of the run of `k` that starts at `i` (`i` itself when `s[i]` is not in `k`). */
  function RunEnd(s: string, i: nat, k: CharClass): (j: nat)
    requires i <= |s|
    ensures i <= j <= |s|
    ensures j < |s| ==> !In(s[j], k)
    decreases |s| - i
  {
    if i < |s| && In(s[i], k) then RunEnd(s, i + 1, k) else i
  }

  /** Every character of the run from `i` is in `k`. */
  lemma {:induction false} RunEndSpan(s: string, i: nat, k: CharClass)
    requires i <= |s|
    ensures forall m :: i <= m < RunEnd(s, i, k) ==> In(s[m], k)
    decreases |s| - i
  {
    if i < |s| && In(s[i], k) {
      RunEndSpan(s, i + 1, k);
    }
  }

  /** The start of the run of `k` that ends just before `j`. */
  function RunStart(s: string, j: nat, k: CharClass): (i: nat)
    requires j <= |s|
    ensures i <= j
    ensures i > 0 ==> !In(s[i - 1], k)
  {
    if j > 0 && In(s[j - 1], k) then RunStart(s, j - 1, k) else j
  }

  /** Every character of the run that ends at `j` is in `k`. */
  lemma {:induction false} RunStartSpan(s: string, j: nat, k: CharClass)
    requires j <= |s|
    ensures forall m :: RunStart(s, j, k) <= m < j ==> In(s[m], k)
  {
    if j > 0 && In(s[j - 1], k) {
      RunStartSpan(s, j - 1, k);
    }
  }

  /** `s[a..b]` is a whole, non-empty run of `k`: it cannot be extended either way. */
  ghost predicate MaximalRun(s: string, a: int, b: int, k: CharClass)
  {
    0 <= a < b <= |s| &&
    (forall m :: a <= m < b ==> In(s[m], k)) &&
    (a == 0 || !In(s[a - 1], k)) &&
    (b == |s| || !In(s[b], k))
  }

  /** Position `i` is not strictly inside a run of `k`. */
  predicate RunBoundary(s: string, i: nat, k: CharClass)
    requires i <= |s|
  {
    i == 0 || i == |s| || !In(s[i - 1], k) || !In(s[i], k)
  }

  /** The maximal runs of `k` in `s[i..]`, left to right. */
  function RunsFrom(s: string, i: nat, k: CharClass): (r: seq<string>)
    requires i <= |s|
    ensures forall n :: 0 <= n < |r| ==> r[n] != []
    ensures forall n, m :: 0 <= n < |r| && 0 <= m < |r[n]| ==> In(r[n][m], k)
    decreases |s| - i
  {
    if i == |s| then []
    else if !In(s[i], k) then RunsFrom(s, i + 1, k)
    else
      var j := RunEnd(s, i, k);
      RunEndSpan(s, i, k);
      [s[i..j]] + RunsFrom(s, j, k)
  }

  /** The maximal runs of `k` in `s`, left to right. */
  function Runs(s: string, k: CharClass): seq<string>
  {
    RunsFrom(s, 0, k)
  }

  lemma {:induction false} RunsFromSound(s: string, i: nat, k: CharClass, w: string)
    requires i <= |s| && RunBoundary(s, i, k)
    requires w in RunsFrom(s, i, k)
    ensures exists a, b :: i <= a && MaximalRun(s, a, b, k) && s[a..b] == w
    decreases |s| - i
  {
    if !In(s[i], k) {
      RunsFromSound(s, i + 1, k, w);
    } else {
      var j := RunEnd(s, i, k);
      if w == s[i..j] {
        RunEndSpan(s, i, k);
        assert MaximalRun(s, i, j, k);
      } else {
        RunsFromSound(s, j, k, w);
      }
    }
  }

  lemma {:induction false} RunsFromComplete(s: string, i: nat, k: CharClass, a: int, b: int)
    requires i <= |s| && RunBoundary(s, i, k)
    requires MaximalRun(s, a, b, k) && i <= a
    ensures s[a..b] in RunsFrom(s, i, k)
    decreases |s| - i
  {
    if !In(s[i], k) {
      RunsFromComplete(s, i + 1, k, a, b);
    } else {
      var j := RunEnd(s, i, k);
      RunEndSpan(s, i, k);
      if a == i {
        assert b == j;
      } else {
        assert !In(s[a - 1], k);
        RunsFromComplete(s, j, k, a, b);
      }
    }
  }

  /** A string is one of the runs of `k` in `s` iff it is a maximal non-empty run of `k` in `s`. */
  lemma RunsCharacterization(s: string, k: CharClass, w: string)
    ensures w in Runs(s, k) <==> exists a, b :: MaximalRun(s, a, b, k) && s[a..b] == w
  {
    if w in Runs(s, k) {
      RunsFromSound(s, 0, k, w);
    }
    if exists a, b :: MaximalRun(s, a, b, k) && s[a..b] == w {
      var a, b :| MaximalRun(s, a, b, k) && s[a..b] == w;
      RunsFromComplete(s, 0, k, a, b);
    }
  }

  /** Every character of `s` is in `k`. */
  predicate AllIn(s: string, k: CharClass)
  {
    forall m :: 0 <= m < |s| ==> In(s[m], k)
  }

  /** No character of `s` is in `k`. */
  predicate NoneIn(s: string, k: CharClass)
  {
    forall m :: 0 <= m < |s| ==> !In(s[m], k)
  }

  /** The characters of `s[i..]` that are in `k`, in order. */
  function KeepFrom(s: string, i: nat, k: CharClass): (r: string)
    requires i <= |s|
    ensures |r| <= |s| - i
    ensures AllIn(r, k)
    decreases |s| - i
  {
    if i == |s| then []
    else (if In(s[i], k) then [s[i]] else []) + KeepFrom(s, i + 1, k)
  }

  /** The characters of `s` that are in `k`, in order: a global replace of the complement by "". */
  function KeepClass(s: string, k: CharClass): (r: string)
    ensures |r| <= |s|
    ensures AllIn(r, k)
  {
    KeepFrom(s, 0, k)
  }

  lemma {:induction false} KeepFromNothing(s: string, i: nat, k: CharClass)
    requires i <= |s|
    requires forall m :: i <= m < |s| ==> !In(s[m], k)
    ensures KeepFrom(s, i, k) == []
    decreases |s| - i
  {
    if i < |s| {
      KeepFromNothing(s, i + 1, k);
    }
  }

  /** A stretch of characters all in `k` is kept whole. */
  lemma {:induction false} KeepFromRun(s: string, i: nat, j: nat, k: CharClass)
    requires i <= j <= |s|
    requires forall m :: i <= m < j ==> In(s[m], k)
    ensures KeepFrom(s, i, k) == s[i..j] + KeepFrom(s, j, k)
    decreases j - i
  {
    if i < j {
      var n := i + 1;
      KeepFromRun(s, n, j, k);
      calc {
        KeepFrom(s, i, k);
        [s[i]] + KeepFrom(s, n, k);
        [s[i]] + (s[n..j] + KeepFrom(s, j, k));
        { assert s[i..j] == [s[i]] + s[n..j]; }
        s[i..j] + KeepFrom(s, j, k);
      }
    }
  }

  /** Nothing is kept from a string with no character of `k`. */
  lemma KeepClassNothing(s: string, k: CharClass)
    requires NoneIn(s, k)
    ensures KeepClass(s, k) == []
  {
    KeepFromNothing(s, 0, k);
  }

  /** The strings of `parts`, concatenated in order. */
  function Concat(parts: seq<string>): string
  {
    if parts == [] then [] else parts[0] + Concat(parts[1..])
  }

  lemma ConcatPair(x: string, y: string, rest: seq<string>)
    ensures Concat([x, y] + rest) == x + y + Concat(rest)
  {
    assert ([x, y] + rest)[1..] == [y] + rest;
    assert ([y] + rest)[1..] == rest;
  }

  /** A run of `k` that stops exactly at `j` ends at `j`. */
  lemma {:induction false} RunEndExact(s: string, i: nat, j: nat, k: CharClass)
    requires i <= j <= |s|
    requires forall m :: i <= m < j ==> In(s[m], k)
    requires j == |s| || !In(s[j], k)
    ensures RunEnd(s, i, k) == j
    decreases j - i
  {
    if i < j {
      RunEndExact(s, i + 1, j, k);
    }
  }

  /** Runs are found the same in a slice, cut off at the slice's end. */
  lemma {:induction false} RunEndOfSlice(s: string, a: nat, b: nat, i: nat, k: CharClass)
    requires a <= b <= |s| && i <= b - a
    ensures RunEnd(s[a..b], i, k) + a == if RunEnd(s, a + i, k) <= b then RunEnd(s, a + i, k) else b
    decreases b - a - i
  {
    if i < b - a && In(s[a + i], k) {
      RunEndOfSlice(s, a, b, i + 1, k);
    }
  }

  /** A run that ends inside a slice ends at the same place in the whole text. */
  lemma RunEndInSlice(s: string, a: nat, b: nat, i: nat, k: CharClass)
    requires a <= b <= |s| && i <= b - a
    requires RunEnd(s[a..b], i, k) < b - a
    ensures RunEnd(s, a + i, k) == RunEnd(s[a..b], i, k) + a
  {
    RunEndOfSlice(s, a, b, i, k);
  }

  /** A run of the whole text that ends inside a slice ends at the same place in the slice. */
  lemma RunEndInWhole(s: string, a: nat, b: nat, i: nat, k: CharClass)
    requires a <= b <= |s| && i <= b - a
    requires RunEnd(s, a + i, k) <= b
    ensures RunEnd(s[a..b], i, k) == RunEnd(s, a + i, k) - a
  {
    RunEndOfSlice(s, a, b, i, k);
  }

  // ---------------------------------------------------------------------
  // Python's str.strip()
  // ---------------------------------------------------------------------

  predicate IsBlank(s: string)
  {
    forall m :: 0 <= m < |s| ==> IsPySpace(s[m])
  }

  predicate IsStripped(s: string)
  {
    s == [] || (!IsPySpace(s[0]) && !IsPySpace(s[|s| - 1]))
  }

  /** `str.strip()`: the longest factor of `s` that neither starts nor ends with whitespace. */
  function Strip(s: string): (r: string)
    ensures IsStripped(r)
    ensures r == [] <==> IsBlank(s)
    ensures IsStripped(s) ==> r == s
    ensures |r| <= |s|
  {
    var a := RunEnd(s, 0, PySpace);
    var b := RunStart(s, |s|, PySpace);
    RunEndSpan(s, 0, PySpace);
    RunStartSpan(s, |s|, PySpace);
    if a < b then s[a..b] else []
  }

  /** What `str.strip()` keeps of `s` is the factor of `s` at `a`. */
  lemma StripFactor(s: string) returns (a: nat)
    ensures a + |Strip(s)| <= |s| && Strip(s) == s[a..a + |Strip(s)|]
  {
    a := RunEnd(s, 0, PySpace);
    var b := RunStart(s, |s|, PySpace);
    if a >= b {
      a := 0;
    }
  }

  /** A run of `k` that starts exactly at `i` starts at `i`. */
  lemma {:induction false} RunStartExact(s: string, i: nat, j: nat, k: CharClass)
    requires i <= j <= |s|
    requires forall m :: i <= m < j ==> In(s[m], k)
    requires i == 0 || !In(s[i - 1], k)
    ensures RunStart(s, j, k) == i
    decreases j - i
  {
    if i < j {
      RunStartExact(s, i, j - 1, k);
    }
  }

  /**
   * `str.strip()` keeps exactly the factor between a whitespace prefix and a
   * whitespace suffix when that factor starts and ends with non-whitespace.
   */
  lemma StripExact(s: string, a: nat, b: nat)
    requires a <= b <= |s|
    requires forall m :: 0 <= m < a ==> IsPySpace(s[m])
    requires forall m :: b <= m < |s| ==> IsPySpace(s[m])
    requires a < b ==> !IsPySpace(s[a]) && !IsPySpace(s[b - 1])
    ensures Strip(s) == s[a..b]
  {
    if a == b {
      assert IsBlank(s);
    } else {
      RunEndExact(s, 0, a, PySpace);
      RunStartExact(s, b, |s|, PySpace);
    }
  }

  /** Leading whitespace does not change what `str.strip()` keeps. */
  lemma StripAfterSpace(s: string, a: nat)
    requires a <= |s|
    requires forall m :: 0 <= m < a ==> IsPySpace(s[m])
    ensures Strip(s[a..]) == Strip(s)
  {
    var t := s[a..];
    var i := RunEnd(t, 0, PySpace);
    var j := RunStart(t, |t|, PySpace);
    RunEndSpan(t, 0, PySpace);
    RunStartSpan(t, |t|, PySpace);
    if i < j {
      assert forall m :: a <= m < |s| ==> s[m] == t[m - a];
      StripExactAfter(s, a, a + i, a + j);
    } else {
      BlankAfterSpace(s, a);
    }
  }

  /** When strip keeps `s[b..e]` of `s`, it keeps the same of any suffix `s[a..]` with `a <= b`. */
  lemma StripExactAfter(s: string, a: nat, b: nat, e: nat)
    requires a <= b < e <= |s|
    requires forall m :: 0 <= m < b ==> IsPySpace(s[m])
    requires forall m :: e <= m < |s| ==> IsPySpace(s[m])
    requires !IsPySpace(s[b]) && !IsPySpace(s[e - 1])
    ensures Strip(s[a..]) == Strip(s)
  {
    var t := s[a..];
    StripExact(s, b, e);
    StripExact(t, b - a, e - a);
    assert t[b - a..e - a] == s[b..e];
  }

  /** A text that is whitespace after a whitespace prefix is blank. */
  lemma BlankAfterSpace(s: string, a: nat)
    requires a <= |s|
    requires forall m :: 0 <= m < a ==> IsPySpace(s[m])
    requires RunEnd(s[a..], 0, PySpace) >= RunStart(s[a..], |s| - a, PySpace)
    ensures Strip(s[a..]) == Strip(s)
  {
    var t := s[a..];
    RunEndSpan(t, 0, PySpace);
    RunStartSpan(t, |t|, PySpace);
    assert IsBlank(t);
    assert IsBlank(s) by {
      forall m | 0 <= m < |s| ensures IsPySpace(s[m]) {
        if m >= a {
          assert s[m] == t[m - a];
        }
      }
    }
  }

  /** A text that starts with non-whitespace loses only trailing whitespace to `str.strip()`. */
  lemma StripFromStart(s: string, w: nat)
    requires w < |s| && !IsPySpace(s[0]) && !IsPySpace(s[w])
    ensures w < |Strip(s)| && Strip(s) == s[..|Strip(s)|]
  {
    var b := RunStart(s, |s|, PySpace);
    RunStartSpan(s, |s|, PySpace);
    StripExact(s, 0, b);
  }

  /** A text that ends with non-whitespace loses only leading whitespace to `str.strip()`. */
  lemma StripToEnd(s: string, a: nat)
    requires a < |s| && !IsPySpace(s[a]) && !IsPySpace(s[|s| - 1])
    ensures |s| - a <= |Strip(s)| && Strip(s) == s[|s| - |Strip(s)|..]
  {
    var e := RunEnd(s, 0, PySpace);
    RunEndSpan(s, 0, PySpace);
    StripExact(s, e, |s|);
  }

  // ---------------------------------------------------------------------
  // Python's str.splitlines()
  // ---------------------------------------------------------------------

  function SplitLinesFrom(s: string, i: nat): (r: seq<string>)
    requires i <= |s|
    ensures forall n, m :: 0 <= n < |r| && 0 <= m < |r[n]| ==> !IsLineBreak(r[n][m])
    decreases |s| - i
  {
    if i == |s| then []
    else
      var e := RunEnd(s, i, Not(LineBreak));
      RunEndSpan(s, i, Not(LineBreak));
      if e == |s| then [s[i..]]
      else
        var next := if s[e] == '\r' && e + 1 < |s| && s[e + 1] == '\n' then e + 2 else e + 1;
        [s[i..e]] + SplitLinesFrom(s, next)
  }

  /**
   * `str.splitlines()`: the lines of `s` without their line boundaries; `"\r\n"`
   * is one boundary, and a final boundary does not open an empty last line.
   */
  function SplitLines(s: string): seq<string>
  {
    SplitLinesFrom(s, 0)
  }

  // ---------------------------------------------------------------------
  // Prefixes, substrings, joining
  // ---------------------------------------------------------------------

  predicate StartsWith(s: string, prefix: string)
  {
    |prefix| <= |s| && s[..|prefix|] == prefix
  }

  /** The position of the first `c` in `s` at or after `i`. */
  function IndexFrom(s: string, c: char, i: nat): (k: nat)
    requires i <= |s| && exists m :: i <= m < |s| && s[m] == c
    ensures i <= k < |s| && s[k] == c
    ensures forall m :: i <= m < k ==> s[m] != c
    decreases |s| - i
  {
    if s[i] == c then i else IndexFrom(s, c, i + 1)
  }

  /** `s.split(c, 1)[1]`: the text after the first `c`. */
  function AfterFirst(s: string, c: char): (r: string)
    requires exists m :: 0 <= m < |s| && s[m] == c
    ensures |r| < |s| && r == s[|s| - |r|..]
    ensures forall m :: 0 <= m < |s| - |r| - 1 ==> s[m] != c
    ensures s[|s| - |r| - 1] == c
  {
    s[IndexFrom(s, c, 0) + 1..]
  }

  /** No text starts with two prefixes that start with different characters. */
  lemma PrefixesDiffer(u: string, t1: string, t2: string)
    requires t1 != [] && t2 != [] && t1[0] != t2[0]
    ensures !(StartsWith(u, t1) && StartsWith(u, t2))
  {
    if |t1| <= |u| && |t2| <= |u| {
      assert u[..|t1|][0] == u[0] == u[..|t2|][0];
    }
  }

  /** Python's `m in s` on strings: `m` occurs in `s` at some position. */
  predicate Contains(s: string, m: string)
  {
    exists i | 0 <= i <= |s| - |m| :: StartsWith(s[i..], m)
  }

  /** `sep.join(parts)`. */
  function Join(parts: seq<string>, sep: string): string
  {
    if |parts| == 0 then ""
    else if |parts| == 1 then parts[0]
    else parts[0] + sep + Join(parts[1..], sep)
  }
}
