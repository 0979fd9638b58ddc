/**
 * The parts of Python's `str` that the disclosure pipeline relies on, over `seq<char>`:
 * `isspace`, `strip`, `splitlines`, `split`, `join`, `in`, `replace` and `upper`.
 */
module Strings {

  /** Python's `str.isspace()` on one character; it is also what `\s` matches in a `str` regex. */
  predicate IsWs(c: char) {
    || c == ' ' || c == '\t' || c == '\n' || c == '\r' || c == '\U{0B}' || c == '\U{0C}'
    || ('\U{1C}' <= c <= '\U{1F}') || c == '\U{85}' || c == '\U{A0}' || c == '\U{1680}'
    || ('\U{2000}' <= c <= '\U{200A}') || c == '\U{2028}' || c == '\U{2029}' || c == '\U{202F}'
    || c == '\U{205F}' || c == '\U{3000}'
  }

  /** The characters at which Python's `str.splitlines()` ends a line. */
  predicate IsLineBreak(c: char) {
    || c == '\n' || c == '\r' || c == '\U{0B}' || c == '\U{0C}' || ('\U{1C}' <= c <= '\U{1E}')
    || c == '\U{85}' || c == '\U{2028}' || c == '\U{2029}'
  }

  /** `\d` restricted to ASCII. */
  predicate IsDigit(c: char) {
    '0' <= c <= '9'
  }

  ghost predicate AllWs(s: string) {
    forall i | 0 <= i < |s| :: IsWs(s[i])
  }

  ghost predicate NoLineBreak(s: string) {
    forall i | 0 <= i < |s| :: !IsLineBreak(s[i])
  }

  /** `t` occurs in `s` starting at index `i`. */
  predicate StartsAt(s: string, i: nat, t: string) {
    i + |t| <= |s| && s[i..i + |t|] == t
  }

  /** Python's `t in s`. */
  predicate Contains(s: string, t: string) {
    exists i: nat | i <= |s| :: StartsAt(s, i, t)
  }

  /** The first index at or after `i` that does not hold whitespace. */
  function SkipWs(s: string, i: nat): (r: nat)
    requires i <= |s|
    ensures i <= r <= |s|
    ensures forall k | i <= k < r :: IsWs(s[k])
    ensures r < |s| ==> !IsWs(s[r])
    decreases |s| - i
  {
    if i < |s| && IsWs(s[i]) then SkipWs(s, i + 1) else i
  }

  /** The start of the run of whitespace that ends at `hi`, not going below `lo`. */
  function TrimEnd(s: string, lo: nat, hi: nat): (r: nat)
    requires lo <= hi <= |s|
    ensures lo <= r <= hi
    ensures forall k | r <= k < hi :: IsWs(s[k])
    ensures lo < r ==> !IsWs(s[r - 1])
    decreases hi - lo
  {
    if lo < hi && IsWs(s[hi - 1]) then TrimEnd(s, lo, hi - 1) else hi
  }

  /** The first index at or after `i` holding `c`, or `|s|` when there is none. */
  function FindChar(s: string, i: nat, c: char): (r: nat)
    requires i <= |s|
    ensures i <= r <= |s|
    ensures forall k | i <= k < r :: s[k] != c
    ensures r < |s| ==> s[r] == c
    decreases |s| - i
  {
    if i == |s| || s[i] == c then i else FindChar(s, i + 1, c)
  }

  /** Python's `s.strip()`: leading and trailing whitespace removed. */
  function Strip(s: string): (r: string)
    ensures |r| <= |s|
  {
    var a := SkipWs(s, 0);
    s[a..TrimEnd(s, a, |s|)]
  }

  /**
   * `strip` removes exactly the whitespace at the two ends: it gives `""` just when `s` is all
   * whitespace, and otherwise a slice of `s` that starts and ends with non-whitespace.
   */
  lemma StripSpec(s: string)
    ensures (Strip(s) == "") == AllWs(s)
    ensures Strip(s) != "" ==> !IsWs(Strip(s)[0]) && !IsWs(Strip(s)[|Strip(s)| - 1])
    ensures exists a: nat, b: nat | a <= b <= |s| :: Strip(s) == s[a..b] && AllWs(s[..a]) && AllWs(s[b..])
  {
    var a := SkipWs(s, 0);
    var b := TrimEnd(s, a, |s|);
    assert Strip(s) == s[a..b];
    assert AllWs(s[..a]) by {
      forall i | 0 <= i < a ensures IsWs(s[..a][i]) {
        assert s[..a][i] == s[i];
      }
    }
    assert AllWs(s[b..]) by {
      forall i | 0 <= i < |s| - b ensures IsWs(s[b..][i]) {
        assert s[b..][i] == s[b + i];
      }
    }
  }

  /** Every character of `Strip(s)` is a character of `s`. */
  lemma StripMembers(s: string)
    ensures forall c | c in Strip(s) :: c in s
  {
    var a := SkipWs(s, 0);
    SliceMembers(s, a, TrimEnd(s, a, |s|));
  }

  /** `SkipWs` stops at the first non-whitespace character at or after `i`. */
  lemma {:induction false} SkipWsAt(s: string, i: nat, k: nat)
    requires i <= k <= |s|
    requires forall j | i <= j < k :: IsWs(s[j])
    requires k < |s| ==> !IsWs(s[k])
    ensures SkipWs(s, i) == k
    decreases k - i
  {
    if i < k {
      SkipWsAt(s, i + 1, k);
    }
  }

  /** `TrimEnd` stops after the last non-whitespace character below `hi`. */
  lemma {:induction false} TrimEndAt(s: string, lo: nat, hi: nat, r: nat)
    requires lo <= r <= hi <= |s|
    requires forall j | r <= j < hi :: IsWs(s[j])
    requires lo < r ==> !IsWs(s[r - 1])
    ensures TrimEnd(s, lo, hi) == r
    decreases hi - r
  {
    if r < hi {
      TrimEndAt(s, lo, hi - 1, r);
    }
  }

  /** Whitespace added at the front is skipped before the rest of the string is reached. */
  lemma SkipWsAppend(w: string, y: string)
    requires AllWs(w)
    ensures SkipWs(w + y, 0) == |w| + SkipWs(y, 0)
  {
    var s := w + y;
    var a := SkipWs(y, 0);
    forall j | 0 <= j < |w| + a ensures IsWs(s[j]) {
      if j < |w| {
        assert s[j] == w[j];
      } else {
        assert s[j] == y[j - |w|];
      }
    }
    if a < |y| {
      assert s[|w| + a] == y[a];
    }
    SkipWsAt(s, 0, |w| + a);
  }

  /** Trimming the end of `w + y` above `|w|` is trimming the end of `y`, shifted. */
  lemma TrimEndAppend(w: string, y: string, a: nat)
    requires a <= |y|
    ensures TrimEnd(w + y, |w| + a, |w| + |y|) == |w| + TrimEnd(y, a, |y|)
  {
    var s := w + y;
    var b := TrimEnd(y, a, |y|);
    forall j | |w| + b <= j < |s| ensures IsWs(s[j]) {
      assert s[j] == y[j - |w|];
    }
    if a < b {
      assert s[|w| + b - 1] == y[b - 1];
    }
    TrimEndAt(s, |w| + a, |s|, |w| + b);
  }

  /** Whitespace added at the front is stripped away again. */
  lemma StripPrefixWs(w: string, y: string)
    requires AllWs(w)
    ensures Strip(w + y) == Strip(y)
  {
    SkipWsAppend(w, y);
    StripShift(w, y);
  }

  lemma StripShift(w: string, y: string)
    requires SkipWs(w + y, 0) == |w| + SkipWs(y, 0)
    ensures Strip(w + y) == Strip(y)
  {
    var a := SkipWs(y, 0);
    var b := TrimEnd(y, a, |y|);
    TrimEndAppend(w, y, a);
    AppendSlice(w, y, a, b);
    StripBetween(y, a, b);
    StripBetween(w + y, |w| + a, |w| + b);
    EqualChain(Strip(w + y), (w + y)[|w| + a..|w| + b], y[a..b], Strip(y));
  }

  // EqualChain, AppendEmpty and AppendAssoc4 (and SnocAssoc, SpaceJoinSnoc in Segmenter) state
  // one-step equalities over plain strings. Stating them apart keeps the proofs that use them
  // small for the solver; they carry no property of the pipeline.
  lemma EqualChain(p: string, q: string, r: string, t: string)
    requires p == q && q == r && r == t
    ensures p == t
  {
  }

  /** `Strip(s)` is the slice between the ends that `SkipWs` and `TrimEnd` find. */
  lemma StripBetween(s: string, a: nat, b: nat)
    requires a <= |s| && SkipWs(s, 0) == a
    requires b <= |s| && TrimEnd(s, a, |s|) == b
    ensures Strip(s) == s[a..b]
  {
  }

  lemma AppendSlice(w: string, y: string, a: nat, b: nat)
    requires a <= b <= |y|
    ensures (w + y)[|w| + a..|w| + b] == y[a..b]
  {
  }

  /** Stripping keeps a leading part that starts and ends with non-whitespace. */
  lemma StripKeepsPrefix(y: string, p: string)
    requires p != "" && !IsWs(p[0]) && !IsWs(p[|p| - 1])
    requires |p| <= |y| && y[..|p|] == p
    ensures |p| <= |Strip(y)| && Strip(y)[..|p|] == p
  {
    assert y[0] == p[0] && y[|p| - 1] == p[|p| - 1];
    var b := TrimEnd(y, 0, |y|);
    assert SkipWs(y, 0) == 0;
    assert |p| <= b;
  }

  /** Stripping a string that has no whitespace at either end leaves it alone. */
  lemma StripNoOp(s: string)
    requires s == "" || (!IsWs(s[0]) && !IsWs(s[|s| - 1]))
    ensures Strip(s) == s
  {
    if s != "" {
      assert SkipWs(s, 0) == 0;
      assert TrimEnd(s, 0, |s|) == |s|;
    }
  }

  /** Python's `s.splitlines()`: the lines of `s`, without their line breaks; `\r\n` is one break. */
  function SplitLines(s: string): (lines: seq<string>)
    ensures (lines == []) == (s == "")
    decreases |s|
  {
    if s == "" then []
    else
      var i := FindLineBreak(s, 0);
      if i == |s| then [s]
      else
        var next := if s[i] == '\r' && i + 1 < |s| && s[i + 1] == '\n' then i + 2 else i + 1;
        [s[..i]] + SplitLines(s[next..])
  }

  /** No line that `splitlines` returns holds a line break. */
  lemma {:induction false} SplitLinesNoBreak(s: string)
    ensures forall k | 0 <= k < |SplitLines(s)| :: NoLineBreak(SplitLines(s)[k])
    decreases |s|
  {
    if s != "" {
      var i := FindLineBreak(s, 0);
      if i < |s| {
        var next := if s[i] == '\r' && i + 1 < |s| && s[i + 1] == '\n' then i + 2 else i + 1;
        SplitLinesNoBreak(s[next..]);
        SplitLinesUnfold(s, i, next);
      }
    }
  }

  /**
   * Where `splitlines` cuts: a line with no break is one line, and a text that starts with a
   * break-free line and a break gives that line, then the lines of the rest. A `\r` directly
   * followed by `\n` is one break, so the rest then starts after the `\n`.
   */
  lemma SplitLinesSpec(line: string, b: char, rest: string)
    requires NoLineBreak(line) && IsLineBreak(b)
    ensures line != "" ==> SplitLines(line) == [line]
    ensures !(b == '\r' && rest != "" && rest[0] == '\n') ==> SplitLines(line + [b] + rest) == [line] + SplitLines(rest)
    ensures SplitLines(line + "\r\n" + rest) == [line] + SplitLines(rest)
  {
    if line != "" {
      FindLineBreakAt(line, 0, |line|);
    }
    if !(b == '\r' && rest != "" && rest[0] == '\n') {
      SplitLinesCut(line, [b], rest);
    }
    SplitLinesCut(line, "\r\n", rest);
  }

  /** A break-free line, then one break (`brk`), then the rest. */
  lemma SplitLinesCut(line: string, brk: string, rest: string)
    requires NoLineBreak(line)
    requires (|brk| == 1 && IsLineBreak(brk[0]) && !(brk[0] == '\r' && rest != "" && rest[0] == '\n')) || brk == "\r\n"
    ensures SplitLines(line + brk + rest) == [line] + SplitLines(rest)
  {
    var s := line + brk + rest;
    var i := |line|;
    FindLineBreakAt(s, 0, i);
    assert s[..i] == line;
    assert s[i + |brk|..] == rest;
    SplitLinesUnfold(s, i, i + |brk|);
  }

  /** `FindLineBreak` stops at the first line break at or after `i`. */
  lemma {:induction false} FindLineBreakAt(s: string, i: nat, k: nat)
    requires i <= k <= |s|
    requires forall j | i <= j < k :: !IsLineBreak(s[j])
    requires k < |s| ==> IsLineBreak(s[k])
    ensures FindLineBreak(s, i) == k
    decreases k - i
  {
    if i < k {
      FindLineBreakAt(s, i + 1, k);
    }
  }

  /** The first index at or after `i` that holds a line break, or `|s|`. */
  function FindLineBreak(s: string, i: nat): (r: nat)
    requires i <= |s|
    ensures i <= r <= |s|
    ensures forall k | i <= k < r :: !IsLineBreak(s[k])
    ensures r < |s| ==> IsLineBreak(s[r])
    decreases |s| - i
  {
    if i == |s| || IsLineBreak(s[i]) then i else FindLineBreak(s, i + 1)
  }

  function Concat(xs: seq<string>): string {
    if xs == [] then "" else xs[0] + Concat(xs[1..])
  }

  /** `s` with every line-break character taken out. */
  function DropLineBreaks(s: string): string {
    if s == "" then "" else (if IsLineBreak(s[0]) then "" else [s[0]]) + DropLineBreaks(s[1..])
  }

  lemma {:induction false} DropLineBreaksAppend(a: string, b: string)
    ensures DropLineBreaks(a + b) == DropLineBreaks(a) + DropLineBreaks(b)
    decreases |a|
  {
    if a != "" {
      assert (a + b)[1..] == a[1..] + b;
      DropLineBreaksAppend(a[1..], b);
    } else {
      assert a + b == b;
    }
  }

  lemma {:induction false} DropLineBreaksNone(a: string)
    requires NoLineBreak(a)
    ensures DropLineBreaks(a) == a
    decreases |a|
  {
    if a != "" {
      DropLineBreaksNone(a[1..]);
    }
  }

  lemma {:induction false} DropLineBreaksAll(a: string)
    requires forall k | 0 <= k < |a| :: IsLineBreak(a[k])
    ensures DropLineBreaks(a) == ""
    decreases |a|
  {
    if a != "" {
      DropLineBreaksAll(a[1..]);
    }
  }

  lemma DropLineBreaksAround(line: string, brk: string, rest: string)
    requires NoLineBreak(line)
    requires forall k | 0 <= k < |brk| :: IsLineBreak(brk[k])
    ensures DropLineBreaks(line + brk + rest) == line + DropLineBreaks(rest)
  {
    DropLineBreaksNone(line);
    DropLineBreaksAll(brk);
    DropLineBreaksAppend(line, brk);
    AppendEmpty(line, DropLineBreaks(brk));
    DropLineBreaksAppend(line + brk, rest);
  }

  /** A one-step equality kept apart for the solver's sake (see EqualChain). */
  lemma AppendEmpty(a: string, e: string)
    requires e == ""
    ensures a + e == a
  {
  }

  lemma ConcatCons(x: string, xs: seq<string>)
    ensures Concat([x] + xs) == x + Concat(xs)
  {
    assert ([x] + xs)[1..] == xs;
  }

  /** `splitlines` loses no character except the line breaks themselves, and keeps their order. */
  lemma {:induction false} SplitLinesKeepsText(s: string)
    ensures Concat(SplitLines(s)) == DropLineBreaks(s)
    decreases |s|
  {
    if s != "" {
      var i := FindLineBreak(s, 0);
      if i == |s| {
        DropLineBreaksNone(s);
      } else {
        var next := if s[i] == '\r' && i + 1 < |s| && s[i + 1] == '\n' then i + 2 else i + 1;
        SplitLinesKeepsText(s[next..]);
        KeepsTextStep(s, i, next);
      }
    }
  }

  lemma KeepsTextStep(s: string, i: nat, next: nat)
    requires s != "" && i == FindLineBreak(s, 0) < |s|
    requires next == if s[i] == '\r' && i + 1 < |s| && s[i + 1] == '\n' then i + 2 else i + 1
    requires Concat(SplitLines(s[next..])) == DropLineBreaks(s[next..])
    ensures Concat(SplitLines(s)) == DropLineBreaks(s)
  {
    SplitLinesUnfold(s, i, next);
    BreakIsAllBreaks(s, i, next);
    SliceThree(s, i, next);
    SplitLinesStep(s[..i], s[i..next], s[next..], SplitLines(s));
  }

  lemma SliceThree(s: string, i: nat, j: nat)
    requires i <= j <= |s|
    ensures s == s[..i] + s[i..j] + s[j..]
  {
  }

  lemma SplitLinesStep(line: string, brk: string, rest: string, lines: seq<string>)
    requires NoLineBreak(line)
    requires forall k | 0 <= k < |brk| :: IsLineBreak(brk[k])
    requires lines == [line] + SplitLines(rest)
    requires Concat(SplitLines(rest)) == DropLineBreaks(rest)
    ensures Concat(lines) == DropLineBreaks(line + brk + rest)
  {
    ConcatCons(line, SplitLines(rest));
    DropLineBreaksAround(line, brk, rest);
  }

  lemma SplitLinesUnfold(s: string, i: nat, next: nat)
    requires s != "" && i == FindLineBreak(s, 0) < |s|
    requires next == if s[i] == '\r' && i + 1 < |s| && s[i + 1] == '\n' then i + 2 else i + 1
    ensures SplitLines(s) == [s[..i]] + SplitLines(s[next..])
  {
  }

  lemma BreakIsAllBreaks(s: string, i: nat, next: nat)
    requires i < |s| && IsLineBreak(s[i])
    requires next == if s[i] == '\r' && i + 1 < |s| && s[i + 1] == '\n' then i + 2 else i + 1
    ensures forall k | 0 <= k < |s[i..next]| :: IsLineBreak(s[i..next][k])
  {
  }

  /** Python's `sep.join(xs)`. */
  function Join(xs: seq<string>, sep: string): string {
    if xs == [] then "" else if |xs| == 1 then xs[0] else xs[0] + sep + Join(xs[1..], sep)
  }

  /** Joining with one more piece at the end adds the separator and that piece. */
  lemma {:induction false} JoinSnoc(xs: seq<string>, x: string, sep: string)
    requires xs != []
    ensures Join(xs + [x], sep) == Join(xs, sep) + sep + x
    decreases |xs|
  {
    if |xs| == 1 {
      assert (xs + [x])[1..] == [x];
    } else {
      assert (xs + [x])[1..] == xs[1..] + [x];
      JoinSnoc(xs[1..], x, sep);
    }
  }

  /** Joining two non-empty lists is joining each and putting the separator between. */
  lemma {:induction false} JoinAppend(xs: seq<string>, ys: seq<string>, sep: string)
    requires xs != [] && ys != []
    ensures Join(xs + ys, sep) == Join(xs, sep) + sep + Join(ys, sep)
    decreases |xs|
  {
    if |xs| == 1 {
      assert (xs + ys)[1..] == ys;
    } else {
      assert (xs + ys)[1..] == xs[1..] + ys;
      JoinAppend(xs[1..], ys, sep);
      AppendAssoc4(xs[0], sep, Join(xs[1..], sep), Join(ys, sep));
    }
  }

  /** A one-step equality kept apart for the solver's sake (see EqualChain). */
  lemma AppendAssoc4(a: string, sep: string, b: string, c: string)
    ensures a + sep + (b + sep + c) == (a + sep + b) + sep + c
  {
  }

  /** A join of non-empty pieces begins with the first piece's first character and ends with the last piece's last. */
  lemma {:induction false} JoinEnds(xs: seq<string>, sep: string)
    requires xs != [] && forall k | 0 <= k < |xs| :: xs[k] != ""
    ensures var j := Join(xs, sep); j != "" && j[0] == xs[0][0] && j[|j| - 1] == xs[|xs| - 1][|xs[|xs| - 1]| - 1]
    decreases |xs|
  {
    if |xs| > 1 {
      JoinEnds(xs[1..], sep);
    }
  }

  /** Python's `s.split(c)` for a one-character separator. */
  function Split(s: string, c: char): (parts: seq<string>)
    ensures |parts| >= 1
    ensures forall k | 0 <= k < |parts| :: c !in parts[k]
    decreases |s|
  {
    var i := FindChar(s, 0, c);
    if i == |s| then [s] else [s[..i]] + Split(s[i + 1..], c)
  }

  /** Joining the pieces of a split gives the string back. */
  lemma {:induction false} JoinSplit(s: string, c: char)
    ensures Join(Split(s, c), [c]) == s
    decreases |s|
  {
    var i := FindChar(s, 0, c);
    if i < |s| {
      JoinSplit(s[i + 1..], c);
      assert s == s[..i] + [c] + s[i + 1..];
    }
  }

  /** Splitting a join of pieces free of the separator gives the pieces back. */
  lemma {:induction false} SplitJoin(xs: seq<string>, c: char)
    requires xs != []
    requires forall k | 0 <= k < |xs| :: c !in xs[k]
    ensures Split(Join(xs, [c]), c) == xs
    decreases |xs|
  {
    var s := Join(xs, [c]);
    FindCharIn(s, xs[0], c);
    if |xs| > 1 {
      SplitJoin(xs[1..], c);
      assert s[|xs[0]| + 1..] == Join(xs[1..], [c]);
      assert s[..|xs[0]|] == xs[0];
    } else {
      assert s == xs[0];
    }
  }

  lemma FindCharIn(s: string, x: string, c: char)
    requires c !in x && |x| <= |s| && s[..|x|] == x
    ensures FindChar(s, 0, c) == if |x| < |s| && s[|x|] == c then |x| else FindChar(s, |x|, c)
  {
    FindCharSkip(s, 0, |x|, c);
  }

  lemma {:induction false} FindCharSkip(s: string, i: nat, j: nat, c: char)
    requires i <= j <= |s|
    requires forall k | i <= k < j :: s[k] != c
    ensures FindChar(s, i, c) == FindChar(s, j, c)
    decreases j - i
  {
    if i < j {
      FindCharSkip(s, i + 1, j, c);
    }
  }

  /** Every character of a slice is a character of the whole. */
  lemma SliceMembers(s: string, lo: nat, hi: nat)
    requires lo <= hi <= |s|
    ensures forall c | c in s[lo..hi] :: c in s
  {
    forall c | c in s[lo..hi] ensures c in s {
      var k :| 0 <= k < hi - lo && s[lo..hi][k] == c;
      assert s[lo + k] == c;
    }
  }

  /** Python's `s.replace(c, "")` for one character. */
  function RemoveChar(s: string, c: char): (r: string)
    ensures c !in r
    ensures forall x | x != c :: x in r <==> x in s
    ensures |r| <= |s|
  {
    if s == "" then ""
    else (if s[0] == c then "" else [s[0]]) + RemoveChar(s[1..], c)
  }

  /**
   * `replace(c, "")` keeps every other character, in order and as often as it occurs: it
   * distributes over concatenation, and one character is dropped exactly when it is `c`.
   */
  lemma RemoveCharSpec(a: string, b: string, x: char, c: char)
    ensures RemoveChar(a + b, c) == RemoveChar(a, c) + RemoveChar(b, c)
    ensures RemoveChar([x], c) == if x == c then "" else [x]
  {
    RemoveCharAppend(a, b, c);
  }

  lemma {:induction false} RemoveCharAppend(a: string, b: string, c: char)
    ensures RemoveChar(a + b, c) == RemoveChar(a, c) + RemoveChar(b, c)
    decreases |a|
  {
    if a == "" {
      assert a + b == b;
    } else {
      assert (a + b)[1..] == a[1..] + b;
      RemoveCharAppend(a[1..], b, c);
    }
  }

  /** Python's `c.upper()` on ASCII letters; every other character is left as it is. */
  function UpperChar(c: char): char {
    if 'a' <= c <= 'z' then (c as int - 'a' as int + 'A' as int) as char else c
  }

  /** Python's `s.upper()`, ASCII letters only. */
  function Upper(s: string): (r: string)
    ensures |r| == |s|
    ensures forall i | 0 <= i < |s| :: r[i] == UpperChar(s[i])
  {
    seq(|s|, i requires 0 <= i < |s| => UpperChar(s[i]))
  }

  /**
   * `upper` keeps the length, turns each lower-case ASCII letter into its capital (32 code
   * points lower) and leaves every other character alone; so no lower-case ASCII letter is
   * left, a second `upper` changes nothing, and line breaks stay where they were.
   */
  lemma UpperSpec(s: string)
    ensures |Upper(s)| == |s|
    ensures forall i | 0 <= i < |s| && !('a' <= s[i] <= 'z') :: Upper(s)[i] == s[i]
    ensures forall i | 0 <= i < |s| && 'a' <= s[i] <= 'z' :: Upper(s)[i] as int == s[i] as int - 32
    ensures forall c | c in Upper(s) :: !('a' <= c <= 'z')
    ensures Upper(Upper(s)) == Upper(s)
    ensures forall i | 0 <= i < |s| :: IsLineBreak(Upper(s)[i]) == IsLineBreak(s[i])
  {
    forall c | c in Upper(s) ensures !('a' <= c <= 'z') {
      var i :| 0 <= i < |s| && Upper(s)[i] == c;
    }
  }
}
