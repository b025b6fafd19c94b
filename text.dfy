/**
  * The handful of Python string operations the report scripts rely on:
  * `str.isspace`/`str.strip`, the substring test `sub in s`, the second
  * piece of `s.split(sep)` and `str.splitlines`.
  */
module Text {
  import opened Wrappers

  /** Python's `str.isspace()` for a single character. */
  predicate IsSpace(c: char) {
    ('\t' <= c <= '\r') || ('\U{1C}' <= c <= '\U{1F}') || c == ' '
    || c == '\U{85}' || c == '\U{A0}' || c == '\U{1680}'
    || ('\U{2000}' <= c <= '\U{200A}') || c == '\U{2028}' || c == '\U{2029}'
    || c == '\U{202F}' || c == '\U{205F}' || c == '\U{3000}'
  }

  /** The index of the first non-whitespace character of `s` at or after `k`, or `|s|`. */
  function SkipSpace(s: string, k: nat): (n: nat)
    requires k <= |s|
    ensures k <= n <= |s|
    ensures forall i :: k <= i < n ==> IsSpace(s[i])
    ensures n < |s| ==> !IsSpace(s[n])
    decreases |s| - k
  {
    if k == |s| || !IsSpace(s[k]) then k else SkipSpace(s, k + 1)
  }

  /** The index just past the last non-whitespace character of `s` before `k`, or 0. */
  function TrimEnd(s: string, k: nat): (n: nat)
    requires k <= |s|
    ensures n <= k
    ensures forall i :: n <= i < k ==> IsSpace(s[i])
    ensures n > 0 ==> !IsSpace(s[n - 1])
  {
    if k == 0 || !IsSpace(s[k - 1]) then k else TrimEnd(s, k - 1)
  }

  /** Python's `s.strip()`: `s` without its leading and trailing whitespace. */
  function Strip(s: string): string {
    var a := SkipSpace(s, 0);
    if a == |s| then [] else s[a..TrimEnd(s, |s|)]
  }

  /**
    * `Strip(s)` is the slice `s[a..e]` of `s` that neither starts nor ends
    * with whitespace, everything cut away being whitespace.
    */
  lemma StripSlice(s: string)
    ensures var a, e := SkipSpace(s, 0), SkipSpace(s, 0) + |Strip(s)|;
      e <= |s| && Strip(s) == s[a..e]
      && (forall i :: 0 <= i < a ==> IsSpace(s[i]))
      && (forall i :: e <= i < |s| ==> IsSpace(s[i]))
      && (Strip(s) != [] ==> !IsSpace(s[a]) && !IsSpace(s[e - 1]))
  {
  }

  /** Stripping twice cuts nothing more than stripping once. */
  lemma StripIdempotent(s: string)
    ensures Strip(Strip(s)) == Strip(s)
  {
    StripSlice(s);
    var r := Strip(s);
    if r != [] {
      assert r[0] == s[SkipSpace(s, 0)];
      assert SkipSpace(r, 0) == 0;
      assert TrimEnd(r, |r|) == |r|;
    }
  }

  /** `sub` occurs in `s` starting at index `i`. */
  predicate OccursAt(s: string, sub: string, i: nat) {
    i + |sub| <= |s| && s[i..i + |sub|] == sub
  }

  /** The first index at or after `k` where `sub` occurs in `s`, if any. */
  function IndexFrom(s: string, sub: string, k: nat): (r: Option<nat>)
    requires k <= |s|
    ensures r.Some? ==> k <= r.value && OccursAt(s, sub, r.value)
    ensures r.Some? ==> forall j :: k <= j < r.value ==> !OccursAt(s, sub, j)
    ensures r.None? ==> forall j :: k <= j ==> !OccursAt(s, sub, j)
    decreases |s| - k
  {
    if OccursAt(s, sub, k) then Some(k)
    else if k == |s| then None
    else IndexFrom(s, sub, k + 1)
  }

  /** The first index where `sub` occurs in `s` (Python's `s.find(sub)`, as an option). */
  function IndexOf(s: string, sub: string): (r: Option<nat>)
    ensures r.Some? ==> OccursAt(s, sub, r.value)
    ensures r.Some? ==> forall j :: 0 <= j < r.value ==> !OccursAt(s, sub, j)
    ensures r.None? ==> forall j :: 0 <= j ==> !OccursAt(s, sub, j)
  {
    IndexFrom(s, sub, 0)
  }

  /** A text without the first character of `sub` holds no occurrence of it. */
  lemma AbsentFirstChar(s: string, sub: string)
    requires sub != []
    requires forall i :: 0 <= i < |s| ==> s[i] != sub[0]
    ensures IndexOf(s, sub) == None
  {
    forall j: nat ensures !OccursAt(s, sub, j) {
      if j + |sub| <= |s| {
        assert s[j..j + |sub|][0] == s[j];
      }
    }
  }

  /** Python's substring test `sub in s`. */
  predicate Contains(s: string, sub: string) {
    IndexOf(s, sub).Some?
  }

  /** `sub in s` holds exactly when `sub` occurs somewhere in `s`. */
  lemma ContainsOccurs(s: string, sub: string)
    ensures Contains(s, sub) <==> exists j :: 0 <= j && OccursAt(s, sub, j)
  {
  }

  /** One occurrence is enough for `sub in s`. */
  lemma OccursContains(s: string, sub: string, j: nat)
    requires OccursAt(s, sub, j)
    ensures Contains(s, sub)
  {
  }

  /** An occurrence in a slice of `s` is an occurrence in `s`, shifted. */
  lemma OccursInSlice(s: string, lo: nat, hi: nat, sub: string, j: nat)
    requires lo <= hi <= |s| && OccursAt(s[lo..hi], sub, j)
    ensures OccursAt(s, sub, lo + j)
  {
    var u, v := s[lo..hi][j..j + |sub|], s[lo + j..lo + j + |sub|];
    assert forall m :: 0 <= m < |u| ==> u[m] == v[m];
    assert u == v;
  }

  /** Stripping cannot create an occurrence: `Strip(s)` is a slice of `s`. */
  lemma StripKeepsAbsence(s: string, sub: string)
    ensures Contains(Strip(s), sub) ==> Contains(s, sub)
  {
    var t := Strip(s);
    if Contains(t, sub) {
      StripSlice(s);
      var a := SkipSpace(s, 0);
      var j := IndexOf(t, sub).value;
      OccursInSlice(s, a, a + |t|, sub, j);
    }
  }

  /**
    * Python's `s.split(sep)[1]`: the text between the first and the second
    * occurrence of `sep` (or the end of `s`). Without an occurrence the
    * indexing raises, which is `None` here. `split` refuses an empty `sep`.
    */
  function SplitAfter(s: string, sep: string): Option<string>
    requires sep != []
  {
    match IndexOf(s, sep)
    case None => None
    case Some(i) =>
      var rest := s[i + |sep|..];
      match IndexOf(rest, sep)
      case None => Some(rest)
      case Some(j) => Some(rest[..j])
  }

  /** A prefix of `s` that ends at the first occurrence of `sub` holds no occurrence. */
  lemma BeforeFirstOccurrence(s: string, sub: string, j: nat)
    requires sub != [] && IndexOf(s, sub) == Some(j)
    ensures !Contains(s[..j], sub)
  {
    forall p: nat | OccursAt(s[..j], sub, p) ensures OccursAt(s, sub, p) && p < j {
      assert s[..j][p..p + |sub|] == s[p..p + |sub|];
    }
    ContainsOccurs(s[..j], sub);
  }

  /** From `start` on, the occurrences in `s` are those in `s[start..]`, shifted. */
  lemma OccursShift(s: string, sub: string, start: nat, p: nat)
    requires start <= p && start <= |s|
    ensures OccursAt(s, sub, p) <==> OccursAt(s[start..], sub, p - start)
  {
    if p + |sub| <= |s| {
      assert s[start..][p - start..p - start + |sub|] == s[p..p + |sub|];
    }
  }

  /** No occurrence in `s[start..]` before `stop - start` means none in `s` from `start` to `stop`. */
  lemma NoOccurrenceBetween(s: string, sub: string, start: nat, stop: nat)
    requires start <= stop <= |s|
    requires forall q :: 0 <= q < stop - start ==> !OccursAt(s[start..], sub, q)
    ensures forall p :: start <= p < stop ==> !OccursAt(s, sub, p)
  {
    forall p | start <= p < stop ensures !OccursAt(s, sub, p) {
      OccursShift(s, sub, start, p);
    }
  }

  /** An occurrence in a suffix of `s` is an occurrence in `s`, shifted. */
  lemma OccursInSuffix(s: string, sub: string, start: nat, j: nat)
    requires start <= |s| && OccursAt(s[start..], sub, j)
    ensures OccursAt(s, sub, start + j)
  {
    assert s[start + j..start + j + |sub|] == s[start..][j..j + |sub|];
  }

  /** What `SplitAfterSpec` promises of the piece `s[start..end]` cut after an occurrence. */
  predicate IsSplitPiece(s: string, sep: string, start: nat, piece: string) {
    var end := start + |piece|;
    end <= |s| && piece == s[start..end] && !Contains(piece, sep)
    && (end == |s| || OccursAt(s, sep, end))
    && (forall p :: start <= p < end ==> !OccursAt(s, sep, p))
  }

  /** Without a second occurrence the piece runs to the end of `s`. */
  lemma SplitPieceToEnd(s: string, sep: string, start: nat)
    requires sep != [] && start <= |s| && IndexOf(s[start..], sep).None?
    ensures IsSplitPiece(s, sep, start, s[start..])
  {
    NoOccurrenceBetween(s, sep, start, |s|);
  }

  /** With a second occurrence at `start + j` the piece stops there. */
  lemma SplitPieceToNext(s: string, sep: string, start: nat, j: nat)
    requires sep != [] && start <= |s| && IndexOf(s[start..], sep) == Some(j)
    ensures IsSplitPiece(s, sep, start, s[start..][..j])
  {
    var rest := s[start..];
    assert rest[..j] == s[start..start + j];
    BeforeFirstOccurrence(rest, sep, j);
    OccursInSuffix(s, sep, start, j);
    NoOccurrenceBetween(s, sep, start, start + j);
  }

  /**
    * `s.split(sep)[1]` exists exactly when `sep` occurs in `s`; it is the
    * text right after the first occurrence, holds no occurrence itself, and
    * ends at the end of `s` or where the next occurrence (the first one at or
    * after its start) begins.
    */
  lemma SplitAfterSpec(s: string, sep: string)
    requires sep != []
    ensures SplitAfter(s, sep).Some? <==> Contains(s, sep)
    ensures SplitAfter(s, sep).Some? ==>
      var piece := SplitAfter(s, sep).value;
      var start := IndexOf(s, sep).value + |sep|;
      var end := start + |piece|;
      end <= |s| && piece == s[start..end] && !Contains(piece, sep)
      && (end == |s| || OccursAt(s, sep, end))
      && (forall p :: start <= p < end ==> !OccursAt(s, sep, p))
  {
    match IndexOf(s, sep)
    case None =>
    case Some(i) =>
      var start := i + |sep|;
      match IndexOf(s[start..], sep)
      case None => SplitPieceToEnd(s, sep, start);
      case Some(j) => SplitPieceToNext(s, sep, start, j);
  }

  /** The line boundaries recognised by Python's `str.splitlines()`. */
  predicate IsLineBreak(c: char) {
    c == '\n' || c == '\r' || c == '\U{B}' || c == '\U{C}'
    || ('\U{1C}' <= c <= '\U{1E}') || c == '\U{85}' || c == '\U{2028}' || c == '\U{2029}'
  }

  /** Index of the first line boundary in `s` at or after `k`, or `|s|` when there is none. */
  function NextBreak(s: string, k: nat): (n: nat)
    requires k <= |s|
    ensures k <= n <= |s|
    decreases |s| - k
  {
    if k == |s| || IsLineBreak(s[k]) then k else NextBreak(s, k + 1)
  }

  /** `NextBreak` skips only non-boundaries and stops at a boundary or the end. */
  lemma {:induction false} NextBreakSpec(s: string, k: nat)
    requires k <= |s|
    ensures forall i :: k <= i < NextBreak(s, k) ==> !IsLineBreak(s[i])
    ensures NextBreak(s, k) < |s| ==> IsLineBreak(s[NextBreak(s, k)])
    decreases |s| - k
  {
    if k < |s| && !IsLineBreak(s[k]) {
      NextBreakSpec(s, k + 1);
    }
  }

  /** How many characters the boundary at `e` takes: two for `\r\n`, else one. */
  function BreakWidth(s: string, e: nat): (w: nat)
    requires e < |s|
    ensures 1 <= w <= 2 && e + w <= |s|
  {
    if s[e] == '\r' && e + 1 < |s| && s[e + 1] == '\n' then 2 else 1
  }

  /** The lines of `s[k..]`, cut at every line boundary, `\r\n` counting as one. */
  function SplitLinesFrom(s: string, k: nat): seq<string>
    requires k <= |s|
    decreases |s| - k
  {
    if k == |s| then []
    else
      var e := NextBreak(s, k);
      if e == |s| then [s[k..]]
      else
        [s[k..e]] + SplitLinesFrom(s, e + BreakWidth(s, e))
  }

  /**
    * Python's `s.splitlines()`: the text cut at every line boundary, `\r\n`
    * counting as one boundary, no trailing empty line for a final boundary.
    */
  function SplitLines(s: string): seq<string> {
    SplitLinesFrom(s, 0)
  }

  /** `line` holds no line boundary. */
  predicate IsLine(line: string) {
    forall i :: 0 <= i < |line| ==> !IsLineBreak(line[i])
  }

  /** Prepending a line to a list of lines keeps every element a line. */
  lemma LinesCons(line: string, lines: seq<string>)
    requires IsLine(line)
    requires forall j :: 0 <= j < |lines| ==> IsLine(lines[j])
    ensures forall j :: 0 <= j < 1 + |lines| ==> IsLine(([line] + lines)[j])
  {
  }

  /** The text from `k` up to the next boundary is a line. */
  lemma LineBeforeBreak(s: string, k: nat)
    requires k <= |s|
    ensures IsLine(s[k..NextBreak(s, k)])
  {
    var e := NextBreak(s, k);
    NextBreakSpec(s, k);
    forall i | 0 <= i < e - k ensures !IsLineBreak(s[k..e][i]) {
      assert s[k..e][i] == s[k + i];
    }
  }

  lemma {:induction false} SplitLinesFromLines(s: string, k: nat)
    requires k <= |s|
    ensures forall j :: 0 <= j < |SplitLinesFrom(s, k)| ==> IsLine(SplitLinesFrom(s, k)[j])
    decreases |s| - k
  {
    if k < |s| {
      var e := NextBreak(s, k);
      LineBeforeBreak(s, k);
      if e < |s| {
        SplitLinesFromLines(s, e + BreakWidth(s, e));
        LinesCons(s[k..e], SplitLinesFrom(s, e + BreakWidth(s, e)));
      } else {
        assert s[k..e] == s[k..];
      }
    }
  }

  lemma SplitLinesFromEmpty(s: string, k: nat)
    requires k <= |s|
    ensures SplitLinesFrom(s, k) == [] <==> k == |s|
  {
  }

  /** No line holds a boundary, and there are lines exactly when the text is not empty. */
  lemma SplitLinesLines(s: string)
    ensures forall j :: 0 <= j < |SplitLines(s)| ==> IsLine(SplitLines(s)[j])
    ensures SplitLines(s) == [] <==> s == []
  {
    SplitLinesFromLines(s, 0);
    SplitLinesFromEmpty(s, 0);
  }

  /** The first boundary at or after `k` is the one at `e` when none lies before it. */
  lemma {:induction false} NextBreakAt(s: string, k: nat, e: nat)
    requires k <= e < |s| && IsLineBreak(s[e])
    requires forall i :: k <= i < e ==> !IsLineBreak(s[i])
    ensures NextBreak(s, k) == e
    decreases e - k
  {
    if k < e {
      NextBreakAt(s, k + 1, e);
    }
  }

  /** The boundaries of a suffix `b == t[o..]` are those of `t` shifted by `o`: `i` in `t` is `k` in `b`. */
  lemma {:induction false} NextBreakShift(t: string, o: nat, b: string, i: nat, k: nat)
    requires |t| == o + |b| && (forall j :: 0 <= j < |b| ==> t[o + j] == b[j]) && k <= |b| && i == o + k
    ensures NextBreak(t, i) == o + NextBreak(b, k)
    decreases |b| - k
  {
    if k < |b| {
      assert t[i] == b[k];
      if !IsLineBreak(b[k]) {
        NextBreakShift(t, o, b, i + 1, k + 1);
      }
    }
  }

  /**
    * A suffix `b == t[o..]` holds the line `b[k..e]` and the boundary at `e`
    * as `t` does at `i` and `n`, which are `k` and `e` shifted by `o`.
    */
  lemma BreakShift(t: string, o: nat, b: string, i: nat, k: nat, n: nat, e: nat)
    requires |t| == o + |b| && (forall j :: 0 <= j < |b| ==> t[o + j] == b[j]) && k <= e < |b| && i == o + k && n == o + e
    ensures t[i..n] == b[k..e]
    ensures BreakWidth(t, n) == BreakWidth(b, e)
  {
  }

  /** One step of `SplitLinesFrom` at the boundary `e`: the line before it, then the lines from `m`, just past it. */
  lemma SplitLinesFromStep(s: string, k: nat, e: nat, m: nat)
    requires k <= e < |s| && NextBreak(s, k) == e && m == e + BreakWidth(s, e)
    ensures SplitLinesFrom(s, k) == [s[k..e]] + SplitLinesFrom(s, m)
  {
  }

  /**
    * `t` read from `i` and `b` read from `k` split alike when they find the
    * same line before their next boundaries, and split alike past those.
    */
  lemma SameLineThenSame(t: string, i: nat, n: nat, m: nat, b: string, k: nat, e: nat, f: nat)
    requires i <= n < |t| && NextBreak(t, i) == n && m == n + BreakWidth(t, n)
    requires k <= e < |b| && NextBreak(b, k) == e && f == e + BreakWidth(b, e)
    requires t[i..n] == b[k..e]
    requires SplitLinesFrom(t, m) == SplitLinesFrom(b, f)
    ensures SplitLinesFrom(t, i) == SplitLinesFrom(b, k)
  {
    SplitLinesFromStep(t, i, n, m);
    SplitLinesFromStep(b, k, e, f);
  }

  /** The last line: with no boundary left in either, `t` from `i` and its suffix `b` from `k` give one and the same line. */
  lemma ShiftAtEnd(t: string, o: nat, b: string, i: nat, k: nat)
    requires |t| == o + |b| && (forall j :: 0 <= j < |b| ==> t[o + j] == b[j]) && k < |b| && i == o + k
    requires NextBreak(b, k) == |b| && NextBreak(t, i) == |t|
    ensures SplitLinesFrom(t, i) == SplitLinesFrom(b, k)
  {
    assert t[i..] == b[k..];
  }

  /**
    * The lines of a suffix `b == t[o..]` read from `k` are those of `t` read
    * from `i == o + k`: what lies before the suffix does not change them.
    */
  lemma {:induction false} SplitLinesFromShift(t: string, o: nat, b: string, i: nat, k: nat)
    requires |t| == o + |b| && (forall j :: 0 <= j < |b| ==> t[o + j] == b[j]) && k <= |b| && i == o + k
    ensures SplitLinesFrom(t, i) == SplitLinesFrom(b, k)
    decreases |b| - k
  {
    if k < |b| {
      NextBreakShift(t, o, b, i, k);
      var e := NextBreak(b, k);
      if e < |b| {
        var n, f := o + e, e + BreakWidth(b, e);
        BreakShift(t, o, b, i, k, n, e);
        SplitLinesFromShift(t, o, b, o + f, f);
        SameLineThenSame(t, i, n, o + f, b, k, e, f);
      } else {
        ShiftAtEnd(t, o, b, i, k);
      }
    }
  }

  /** `\r\n` ends a line as one boundary: the line before it, then the lines after it. */
  lemma SplitLinesCrLf(a: string, b: string)
    requires IsLine(a)
    ensures SplitLines(a + "\r\n" + b) == [a] + SplitLines(b)
  {
    var p := a + "\r\n";
    var s := p + b;
    assert s == a + "\r\n" + b;
    assert forall i :: 0 <= i < |a| ==> s[i] == a[i];
    assert s[|a|] == '\r' && s[|a| + 1] == '\n';
    NextBreakAt(s, 0, |a|);
    assert BreakWidth(s, |a|) == 2;
    assert s[0..|a|] == a;
    SplitLinesFromStep(s, 0, |a|, |p|);
    assert forall j :: 0 <= j < |b| ==> s[|p| + j] == b[j];
    SplitLinesFromShift(s, |p|, b, |p|, 0);
  }

  /** Every line boundary in `s` is a `\n`. */
  predicate OnlyNewlines(s: string) {
    forall c :: c in s && IsLineBreak(c) ==> c == '\n'
  }

  /** Each line followed by `\n`, the inverse of `SplitLines` on such text. */
  function JoinLines(lines: seq<string>): string {
    if lines == [] then [] else lines[0] + "\n" + JoinLines(lines[1..])
  }

  lemma JoinLinesCons(line: string, lines: seq<string>)
    ensures JoinLines([line] + lines) == line + "\n" + JoinLines(lines)
  {
    assert ([line] + lines)[1..] == lines;
  }

  /** A lone `\n` as the next boundary ends the line that starts at `k`. */
  lemma SplitLinesFromNewline(s: string, k: nat)
    requires k < |s| && NextBreak(s, k) < |s| && s[NextBreak(s, k)] == '\n'
    ensures SplitLinesFrom(s, k) == [s[k..NextBreak(s, k)]] + SplitLinesFrom(s, NextBreak(s, k) + 1)
  {
  }

  /** In text ending in `\n` whose boundaries are all `\n`, the next boundary is one. */
  lemma NextBreakIsNewline(s: string, k: nat)
    requires k < |s| && OnlyNewlines(s) && s[|s| - 1] == '\n'
    ensures NextBreak(s, k) < |s| && s[NextBreak(s, k)] == '\n'
  {
    NextBreakSpec(s, k);
    assert IsLineBreak(s[|s| - 1]);
    assert s[NextBreak(s, k)] in s;
  }

  lemma SliceAroundNewline(s: string, k: nat, e: nat)
    requires k <= e < |s| && s[e] == '\n'
    ensures s[k..] == s[k..e] + "\n" + s[e + 1..]
  {
  }

  /** The first line, its `\n` and the joined rest rebuild `s[k..]`. */
  lemma JoinAfterNewline(s: string, k: nat, e: nat, lines: seq<string>)
    requires k <= e < |s| && s[e] == '\n' && JoinLines(lines) == s[e + 1..]
    ensures JoinLines([s[k..e]] + lines) == s[k..]
  {
    JoinLinesCons(s[k..e], lines);
    SliceAroundNewline(s, k, e);
  }

  lemma {:induction false} SplitLinesFromJoin(s: string, k: nat)
    requires k <= |s| && OnlyNewlines(s) && (s == [] || s[|s| - 1] == '\n')
    ensures JoinLines(SplitLinesFrom(s, k)) == s[k..]
    decreases |s| - k
  {
    if k < |s| {
      NextBreakIsNewline(s, k);
      var e := NextBreak(s, k);
      SplitLinesFromNewline(s, k);
      SplitLinesFromJoin(s, e + 1);
      JoinAfterNewline(s, k, e, SplitLinesFrom(s, e + 1));
    }
  }

  /** Text whose lines each end in `\n` is rebuilt from its lines. */
  lemma SplitLinesJoin(s: string)
    requires OnlyNewlines(s) && (s == [] || s[|s| - 1] == '\n')
    ensures JoinLines(SplitLines(s)) == s
  {
    SplitLinesFromJoin(s, 0);
  }

  /** Python's `lines[:n]`. */
  function Take<T>(lines: seq<T>, n: nat): (r: seq<T>)
    ensures |r| <= n && |r| <= |lines|
    ensures |r| == n || r == lines
    ensures forall k :: 0 <= k < |r| ==> r[k] == lines[k]
  {
    if |lines| <= n then lines else lines[..n]
  }
}
