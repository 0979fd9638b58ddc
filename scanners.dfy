/**
 * The regular expressions of the field extractor and of the date recovery, each written as a
 * dedicated scanner. `Decomposes` states what it means for a pattern to match (any way of
 * splitting the text among the pattern's parts), `Preferred` states which of those splits
 * Python's backtracking engine reports (greedy `\s*`, lazy `.*?`), and the lemmas prove that
 * `Search` returns exactly the leftmost, preferred match, as `re.search` does.
 */
module Scanners {
  import opened Wrappers
  import opened Strings

  /** The part `s[lo..hi]` of the searched text that the capture group matched. */
  datatype Span = Span(lo: nat, hi: nat)

  /** The shapes of regular expression in use; each starts with a literal tag. */
  datatype Pattern =
      /** tag\s*(.*?)\s*- */
    | UpToDash(tag: string)
      /** tag\s*([\d,]+)\s*shares, or tag\s*([-\d,]+)\s*shares when `signed` */
    | Count(tag: string, signed: bool)
      /** tag.*?([\d.]+%) */
    | Percent(tag: string)
      /** tag\s*(\d{4}-\d{2}-\d{2}), or tag(\d{4}-\d{2}-\d{2}) when not `skipWs` */
    | Date(tag: string, skipWs: bool)

  /** The character class `[\d,]`, or `[-\d,]` when `signed`. */
  predicate InCount(c: char, signed: bool) {
    IsDigit(c) || c == ',' || (signed && c == '-')
  }

  /** The character class `[\d.]`. */
  predicate InPercent(c: char) {
    IsDigit(c) || c == '.'
  }

  /** `\d{4}-\d{2}-\d{2}` on the whole of `t`. */
  predicate IsDateShape(t: string) {
    && |t| == 10
    && IsDigit(t[0]) && IsDigit(t[1]) && IsDigit(t[2]) && IsDigit(t[3]) && t[4] == '-'
    && IsDigit(t[5]) && IsDigit(t[6]) && t[7] == '-' && IsDigit(t[8]) && IsDigit(t[9])
  }

  /** The first index at or after `i` outside the class `InCount(_, signed)`. */
  function CountRunEnd(s: string, i: nat, signed: bool): (r: nat)
    requires i <= |s|
    ensures i <= r <= |s|
    ensures forall k | i <= k < r :: InCount(s[k], signed)
    ensures r < |s| ==> !InCount(s[r], signed)
    decreases |s| - i
  {
    if i < |s| && InCount(s[i], signed) then CountRunEnd(s, i + 1, signed) else i
  }

  /** The first index at or after `i` outside the class `InPercent`. */
  function PercentRunEnd(s: string, i: nat): (r: nat)
    requires i <= |s|
    ensures i <= r <= |s|
    ensures forall k | i <= k < r :: InPercent(s[k])
    ensures r < |s| ==> !InPercent(s[r])
    decreases |s| - i
  {
    if i < |s| && InPercent(s[i]) then PercentRunEnd(s, i + 1) else i
  }

  /** The lazy `.*?([\d.]+%)` from index `x`: the first start, before any newline, of a run of digits and dots followed by `%`. */
  function LazyPercent(s: string, x: nat): (r: Option<Span>)
    requires x <= |s|
    ensures r.Some? ==> x <= r.value.lo < r.value.hi <= |s|
    decreases |s| - x
  {
    if x == |s| || s[x] == '\n' then None
    else
      var e := PercentRunEnd(s, x);
      if x < e < |s| && s[e] == '%' then Some(Span(x, e + 1)) else LazyPercent(s, x + 1)
  }

  /** `\s*(.*?)\s*-` from index `q`: the group runs from the end of the leading whitespace to the whitespace before the first `-`. */
  function DashMatch(s: string, q: nat): (r: Option<Span>)
    requires q <= |s|
    ensures r.Some? ==> q <= r.value.lo <= r.value.hi <= |s|
  {
    var a := SkipWs(s, q);
    var d := FindChar(s, a, '-');
    if d == |s| then None
    else
      var r := TrimEnd(s, a, d);
      if '\n' in s[a..r] then None else Some(Span(a, r))
  }

  /** `\s*([\d,]+)\s*shares` (or `[-\d,]+`) from index `q`. */
  function CountMatch(s: string, q: nat, signed: bool): (r: Option<Span>)
    requires q <= |s|
    ensures r.Some? ==> q <= r.value.lo < r.value.hi <= |s|
  {
    var a := SkipWs(s, q);
    var b := CountRunEnd(s, a, signed);
    if a < b && StartsAt(s, SkipWs(s, b), "shares") then Some(Span(a, b)) else None
  }

  /** `\s*(\d{4}-\d{2}-\d{2})` (or without the `\s*`) from index `q`. */
  function DateMatch(s: string, q: nat, skip: bool): (r: Option<Span>)
    requires q <= |s|
    ensures r.Some? ==> q <= r.value.lo && r.value.hi == r.value.lo + 10 <= |s|
  {
    var a := if skip then SkipWs(s, q) else q;
    if a + 10 <= |s| && IsDateShape(s[a..a + 10]) then Some(Span(a, a + 10)) else None
  }

  /** The scanner for what follows the tag of `pat`, from index `q`. */
  function MatchAfter(pat: Pattern, s: string, q: nat): (r: Option<Span>)
    requires q <= |s|
    ensures r.Some? ==> q <= r.value.lo <= r.value.hi <= |s|
  {
    match pat
    case UpToDash(_) => DashMatch(s, q)
    case Count(_, signed) => CountMatch(s, q, signed)
    case Percent(_) => LazyPercent(s, q)
    case Date(_, skip) => DateMatch(s, q, skip)
  }

  /** The scanner for `pat` anchored at index `p` (the body of Python's `re.match` at one position). */
  function MatchAt(pat: Pattern, s: string, p: nat): (r: Option<Span>)
    requires p <= |s|
    ensures r.Some? ==> p + |pat.tag| <= r.value.lo <= r.value.hi <= |s|
  {
    if StartsAt(s, p, pat.tag) then MatchAfter(pat, s, p + |pat.tag|) else None
  }

  /** Python's `re.search`: the leftmost index at or after `from` where the pattern matches, with its group. */
  function Search(pat: Pattern, s: string, from: nat): (r: Option<(nat, Span)>)
    requires from <= |s| + 1
    ensures r.Some? ==> from <= r.value.0 <= |s| && MatchAt(pat, s, r.value.0) == Some(r.value.1)
    ensures r.Some? ==> forall p | from <= p < r.value.0 :: MatchAt(pat, s, p).None?
    ensures r.None? ==> forall p | from <= p <= |s| :: MatchAt(pat, s, p).None?
    decreases |s| + 1 - from
  {
    if from > |s| then None
    else
      match MatchAt(pat, s, from)
      case Some(g) => Some((from, g))
      case None => Search(pat, s, from + 1)
  }

  /** The group of the leftmost match in `s`, unstripped (`m.group(1)`), if any. */
  function Group(pat: Pattern, s: string): Option<string> {
    match Search(pat, s, 0)
    case Some((_, g)) => Some(s[g.lo..g.hi])
    case None => None
  }

  /** The extractor's `get`: the stripped group of the leftmost match, or "" when nothing matches. */
  function Get(pat: Pattern, s: string): string {
    match Group(pat, s)
    case Some(g) => Strip(g)
    case None => ""
  }

  // ---------------------------------------------------------------------------------------
  // What the regular expressions mean.

  ghost predicate WsBetween(s: string, i: nat, j: nat) {
    i <= j <= |s| && forall k | i <= k < j :: IsWs(s[k])
  }

  /** `.` matches everything except a newline. */
  ghost predicate NoNewlineBetween(s: string, i: nat, j: nat) {
    i <= j <= |s| && forall k | i <= k < j :: s[k] != '\n'
  }

  /** `\s*-` matches `s[j..d + 1]`. */
  ghost predicate DashAfter(s: string, j: nat, d: nat) {
    WsBetween(s, j, d) && d < |s| && s[d] == '-'
  }

  /** `\s*shares` matches `s[j..k + 6]`. */
  ghost predicate SharesAfter(s: string, j: nat, k: nat) {
    WsBetween(s, j, k) && StartsAt(s, k, "shares")
  }

  /** `([\d.]+%)` matches exactly `s[g.lo..g.hi]`. */
  ghost predicate PercentGroup(s: string, g: Span) {
    g.lo + 1 < g.hi <= |s| && (forall k | g.lo <= k < g.hi - 1 :: InPercent(s[k])) && s[g.hi - 1] == '%'
  }

  /** `\s*(.*?)\s*-` matches from `q` with its group at `g`. */
  ghost predicate DashSplit(s: string, q: nat, g: Span) {
    WsBetween(s, q, g.lo) && NoNewlineBetween(s, g.lo, g.hi) && exists d :: DashAfter(s, g.hi, d)
  }

  /** `\s*([\d,]+)\s*shares` matches from `q` with its group at `g`. */
  ghost predicate CountSplit(s: string, q: nat, signed: bool, g: Span) {
    && WsBetween(s, q, g.lo) && g.lo < g.hi <= |s|
    && (forall k | g.lo <= k < g.hi :: InCount(s[k], signed))
    && exists k :: SharesAfter(s, g.hi, k)
  }

  /** `.*?([\d.]+%)` matches from `q` with its group at `g`. */
  ghost predicate PercentSplit(s: string, q: nat, g: Span) {
    NoNewlineBetween(s, q, g.lo) && PercentGroup(s, g)
  }

  /** `\s*(\d{4}-\d{2}-\d{2})` matches from `q` with its group at `g`. */
  ghost predicate DateSplit(s: string, q: nat, skip: bool, g: Span) {
    && (if skip then WsBetween(s, q, g.lo) else g.lo == q)
    && g.hi == g.lo + 10 <= |s| && IsDateShape(s[g.lo..g.hi])
  }

  /** What follows the tag of `pat` matches from `q` with its capture group at `g`. */
  ghost predicate SplitAfter(pat: Pattern, s: string, q: nat, g: Span) {
    match pat
    case UpToDash(_) => DashSplit(s, q, g)
    case Count(_, signed) => CountSplit(s, q, signed, g)
    case Percent(_) => PercentSplit(s, q, g)
    case Date(_, skip) => DateSplit(s, q, skip, g)
  }

  /** The pattern matches the text from index `p` with its capture group at `g`, in at least one way. */
  ghost predicate Decomposes(pat: Pattern, s: string, p: nat, g: Span) {
    StartsAt(s, p, pat.tag) && SplitAfter(pat, s, p + |pat.tag|, g)
  }

  /** Python's choice for `\s*(.*?)\s*-`: the longest leading whitespace, then the shortest group. */
  ghost predicate DashPreferred(s: string, q: nat, g: Span) {
    && (forall g': Span | DashSplit(s, q, g') :: g'.lo <= g.lo)
    && (forall hi': nat | g.lo <= hi' < g.hi :: !DashSplit(s, q, Span(g.lo, hi')))
  }

  /** Python's choice for `.*?([\d.]+%)`: the shortest prefix. */
  ghost predicate PercentPreferred(s: string, q: nat, g: Span) {
    forall g': Span | PercentSplit(s, q, g') :: g.lo <= g'.lo
  }

  /**
   * Among the ways to match what follows the tag, the one Python reports. The other shapes
   * admit one way at most (DecompositionUnique).
   */
  ghost predicate PreferredAfter(pat: Pattern, s: string, q: nat, g: Span) {
    match pat
    case UpToDash(_) => DashPreferred(s, q, g)
    case Percent(_) => PercentPreferred(s, q, g)
    case _ => true
  }

  ghost predicate Preferred(pat: Pattern, s: string, p: nat, g: Span) {
    PreferredAfter(pat, s, p + |pat.tag|, g)
  }

  // ---------------------------------------------------------------------------------------
  // The scanners agree with the meaning.

  lemma SkipWsLands(s: string, i: nat, k: nat)
    requires WsBetween(s, i, k) && k < |s| && !IsWs(s[k])
    ensures SkipWs(s, i) == k
  {
  }

  lemma {:induction false} LazyPercentIsLeftmost(s: string, x: nat)
    requires x <= |s|
    ensures match LazyPercent(s, x)
      case Some(g) => PercentSplit(s, x, g) && PercentPreferred(s, x, g)
      case None => forall g: Span :: !PercentSplit(s, x, g)
    decreases |s| - x
  {
    if x < |s| && s[x] != '\n' {
      var e := PercentRunEnd(s, x);
      if !(x < e < |s| && s[e] == '%') {
        LazyPercentIsLeftmost(s, x + 1);
        LazyPercentStep(s, x);
      }
    }
  }

  /** A percent group cannot start at `x` when the run of `[\d.]` there is not closed by `%`. */
  lemma LazyPercentStep(s: string, x: nat)
    requires x < |s| && s[x] != '\n'
    requires var e := PercentRunEnd(s, x); !(x < e < |s| && s[e] == '%')
    ensures forall g: Span | PercentSplit(s, x, g) :: PercentSplit(s, x + 1, g)
  {
    forall g: Span | PercentSplit(s, x, g) ensures PercentSplit(s, x + 1, g) {
      if g.lo == x {
        PercentRunStops(s, g);
      }
    }
  }

  lemma PercentRunStops(s: string, g: Span)
    requires PercentGroup(s, g)
    ensures PercentRunEnd(s, g.lo) == g.hi - 1
  {
    PercentRunLands(s, g.lo, g.hi - 1);
  }

  lemma PercentRunLands(s: string, i: nat, j: nat)
    requires i <= j < |s| && (forall k | i <= k < j :: InPercent(s[k])) && !InPercent(s[j])
    ensures PercentRunEnd(s, i) == j
    decreases j - i
  {
    if i < j {
      PercentRunLands(s, i + 1, j);
    }
  }

  lemma DashMatchIsSplit(s: string, q: nat)
    requires q <= |s|
    ensures match DashMatch(s, q)
      case Some(g) => DashSplit(s, q, g) && DashPreferred(s, q, g)
      case None => forall g: Span :: !DashSplit(s, q, g)
  {
    var a := SkipWs(s, q);
    var d := FindChar(s, a, '-');
    if d < |s| {
      var r := TrimEnd(s, a, d);
      assert DashAfter(s, r, d);
    }
  }

  lemma CountMatchIsSplit(s: string, q: nat, signed: bool)
    requires q <= |s|
    ensures match CountMatch(s, q, signed)
      case Some(g) => CountSplit(s, q, signed, g)
      case None => forall g: Span :: !CountSplit(s, q, signed, g)
  {
    var a := SkipWs(s, q);
    var b := CountRunEnd(s, a, signed);
    if a < b && StartsAt(s, SkipWs(s, b), "shares") {
      assert SharesAfter(s, b, SkipWs(s, b));
    } else {
      forall g: Span | CountSplit(s, q, signed, g) ensures false {
        var k :| SharesAfter(s, g.hi, k);
        CountGroupIsRun(s, q, g, k, signed);
      }
    }
  }

  /** A `[\d,]+` group followed by `\s*shares` is the whole run of the class after the leading whitespace. */
  lemma CountGroupIsRun(s: string, q: nat, g: Span, k: nat, signed: bool)
    requires WsBetween(s, q, g.lo) && g.lo < g.hi <= |s|
    requires forall i | g.lo <= i < g.hi :: InCount(s[i], signed)
    requires SharesAfter(s, g.hi, k)
    ensures g.lo == SkipWs(s, q) && g.hi == CountRunEnd(s, g.lo, signed) && k == SkipWs(s, g.hi)
  {
    SkipWsLands(s, q, g.lo);
    assert s[k] == 's';
    SkipWsLands(s, g.hi, k);
    CountRunLands(s, g.lo, g.hi, signed);
  }

  lemma CountRunLands(s: string, i: nat, j: nat, signed: bool)
    requires i <= j <= |s| && (forall k | i <= k < j :: InCount(s[k], signed)) && (j < |s| ==> !InCount(s[j], signed))
    ensures CountRunEnd(s, i, signed) == j
  {
  }

  lemma DateMatchIsSplit(s: string, q: nat, skip: bool)
    requires q <= |s|
    ensures match DateMatch(s, q, skip)
      case Some(g) => DateSplit(s, q, skip, g)
      case None => forall g: Span :: !DateSplit(s, q, skip, g)
  {
  }

  /** At one position, the scanner finds Python's match exactly when the regular expression matches there. */
  lemma MatchAtIsRegexMatch(pat: Pattern, s: string, p: nat)
    requires p <= |s|
    ensures match MatchAt(pat, s, p)
      case Some(g) => Decomposes(pat, s, p, g) && Preferred(pat, s, p, g)
      case None => forall g: Span :: !Decomposes(pat, s, p, g)
  {
    match pat
    case UpToDash(tag) => DashIsRegexMatch(s, p, tag);
    case Count(tag, signed) => CountIsRegexMatch(s, p, tag, signed);
    case Percent(tag) => PercentIsRegexMatch(s, p, tag);
    case Date(tag, skip) => DateIsRegexMatch(s, p, tag, skip);
  }

  lemma DashIsRegexMatch(s: string, p: nat, tag: string)
    requires p <= |s|
    ensures match MatchAt(UpToDash(tag), s, p)
      case Some(g) => Decomposes(UpToDash(tag), s, p, g) && Preferred(UpToDash(tag), s, p, g)
      case None => forall g: Span :: !Decomposes(UpToDash(tag), s, p, g)
  {
    if StartsAt(s, p, tag) {
      var q := p + |tag|;
      DashMatchIsSplit(s, q);
      assert MatchAt(UpToDash(tag), s, p) == DashMatch(s, q);
    }
  }

  lemma CountIsRegexMatch(s: string, p: nat, tag: string, signed: bool)
    requires p <= |s|
    ensures match MatchAt(Count(tag, signed), s, p)
      case Some(g) => Decomposes(Count(tag, signed), s, p, g) && Preferred(Count(tag, signed), s, p, g)
      case None => forall g: Span :: !Decomposes(Count(tag, signed), s, p, g)
  {
    if StartsAt(s, p, tag) {
      var q := p + |tag|;
      CountMatchIsSplit(s, q, signed);
      assert MatchAt(Count(tag, signed), s, p) == CountMatch(s, q, signed);
    }
  }

  lemma PercentIsRegexMatch(s: string, p: nat, tag: string)
    requires p <= |s|
    ensures match MatchAt(Percent(tag), s, p)
      case Some(g) => Decomposes(Percent(tag), s, p, g) && Preferred(Percent(tag), s, p, g)
      case None => forall g: Span :: !Decomposes(Percent(tag), s, p, g)
  {
    if StartsAt(s, p, tag) {
      var q := p + |tag|;
      LazyPercentIsLeftmost(s, q);
      assert MatchAt(Percent(tag), s, p) == LazyPercent(s, q);
    }
  }

  lemma DateIsRegexMatch(s: string, p: nat, tag: string, skip: bool)
    requires p <= |s|
    ensures match MatchAt(Date(tag, skip), s, p)
      case Some(g) => Decomposes(Date(tag, skip), s, p, g) && Preferred(Date(tag, skip), s, p, g)
      case None => forall g: Span :: !Decomposes(Date(tag, skip), s, p, g)
  {
    if StartsAt(s, p, tag) {
      var q := p + |tag|;
      DateMatchIsSplit(s, q, skip);
      assert MatchAt(Date(tag, skip), s, p) == DateMatch(s, q, skip);
    }
  }

  /** Python's preference leaves one group at most: what `re.search` reports is determined. */
  lemma DecompositionUnique(pat: Pattern, s: string, p: nat, g1: Span, g2: Span)
    requires Decomposes(pat, s, p, g1) && Preferred(pat, s, p, g1)
    requires Decomposes(pat, s, p, g2) && Preferred(pat, s, p, g2)
    ensures g1 == g2
  {
    var q := p + |pat.tag|;
    match pat
    case UpToDash(_) =>
      assert g1.lo == g2.lo;
    case Percent(_) =>
      assert g1.lo == g2.lo;
    case Count(_, signed) =>
      CountSplitUnique(s, q, signed, g1, g2);
    case Date(_, skip) =>
      DateSplitUnique(s, q, skip, g1, g2);
  }

  lemma CountSplitUnique(s: string, q: nat, signed: bool, g1: Span, g2: Span)
    requires CountSplit(s, q, signed, g1) && CountSplit(s, q, signed, g2)
    ensures g1 == g2
  {
    var k1 :| SharesAfter(s, g1.hi, k1);
    var k2 :| SharesAfter(s, g2.hi, k2);
    CountGroupIsRun(s, q, g1, k1, signed);
    CountGroupIsRun(s, q, g2, k2, signed);
  }

  lemma DateSplitUnique(s: string, q: nat, skip: bool, g1: Span, g2: Span)
    requires DateSplit(s, q, skip, g1) && DateSplit(s, q, skip, g2)
    ensures g1 == g2
  {
    if skip {
      assert IsDigit(s[g1.lo..g1.hi][0]) && IsDigit(s[g2.lo..g2.hi][0]);
      SkipWsLands(s, q, g1.lo);
      SkipWsLands(s, q, g2.lo);
    }
  }

  /** `Search` is `re.search`: the leftmost position where the pattern matches, and there the preferred group. */
  lemma SearchIsLeftmostMatch(pat: Pattern, s: string)
    ensures match Search(pat, s, 0)
      case Some((p, g)) =>
        && Decomposes(pat, s, p, g) && Preferred(pat, s, p, g)
        && forall p': nat, g': Span | p' < p :: !Decomposes(pat, s, p', g')
      case None =>
        forall p': nat, g': Span :: !Decomposes(pat, s, p', g')
  {
    forall p': nat, g': Span | p' <= |s| && MatchAt(pat, s, p').None? ensures !Decomposes(pat, s, p', g') {
      MatchAtIsRegexMatch(pat, s, p');
    }
    match Search(pat, s, 0)
    case Some((p, g)) => MatchAtIsRegexMatch(pat, s, p);
    case None =>
  }

  // ---------------------------------------------------------------------------------------
  // What `get` returns.

  /** The pattern matches at `p` with group `g` as Python reports it, and nowhere to the left of `p`. */
  ghost predicate LeftmostMatch(pat: Pattern, s: string, p: nat, g: Span) {
    && Decomposes(pat, s, p, g) && Preferred(pat, s, p, g)
    && forall p': nat, g': Span | p' < p :: !Decomposes(pat, s, p', g')
  }

  /**
   * The extractor's `get` never fails: it gives "" when the pattern matches nowhere, and
   * otherwise the stripped group of the leftmost match, as Python reports it.
   */
  lemma GetIsStrippedLeftmostGroup(pat: Pattern, s: string)
    ensures (forall p: nat, g: Span :: !Decomposes(pat, s, p, g)) ==> Get(pat, s) == ""
    ensures forall p: nat, g: Span | LeftmostMatch(pat, s, p, g) ::
      g.lo <= g.hi <= |s| && Get(pat, s) == Strip(s[g.lo..g.hi])
  {
    SearchIsLeftmostMatch(pat, s);
    match Search(pat, s, 0)
    case Some((p0, g0)) =>
      forall p: nat, g: Span | LeftmostMatch(pat, s, p, g)
        ensures g.lo <= g.hi <= |s| && Get(pat, s) == Strip(s[g.lo..g.hi])
      {
        assert p == p0;
        DecompositionUnique(pat, s, p, g, g0);
      }
    case None =>
  }

  /** A `tag\s*(.*?)\s*-` group holds neither a `-` nor a newline. */
  lemma DashGroupShape(tag: string, s: string)
    ensures match Group(UpToDash(tag), s)
      case Some(t) => '-' !in t && '\n' !in t
      case None => true
  {
    match Search(UpToDash(tag), s, 0)
    case Some((p, g)) => DashShapeAt(tag, s, p, g);
    case None =>
  }

  lemma DashShapeAt(tag: string, s: string, p: nat, g: Span)
    requires p <= |s| && MatchAt(UpToDash(tag), s, p) == Some(g)
    ensures '-' !in s[g.lo..g.hi] && '\n' !in s[g.lo..g.hi]
  {
    var q := p + |tag|;
    assert DashMatch(s, q) == Some(g);
    var a := SkipWs(s, q);
    NoCharBefore(s, a, g.hi, '-');
  }

  lemma NoCharBefore(s: string, a: nat, r: nat, c: char)
    requires a <= |s| && a <= r <= FindChar(s, a, c)
    ensures c !in s[a..r]
  {
    forall k | 0 <= k < r - a ensures s[a..r][k] != c {
      assert s[a..r][k] == s[a + k];
    }
  }

  /** A `tag\s*([\d,]+)\s*shares` group holds only characters of its class. */
  lemma CountGroupShape(tag: string, s: string, signed: bool)
    ensures match Group(Count(tag, signed), s)
      case Some(t) => forall c | c in t :: InCount(c, signed)
      case None => true
  {
    match Search(Count(tag, signed), s, 0)
    case Some((p, g)) => CountShapeAt(tag, s, signed, p, g);
    case None =>
  }

  lemma CountShapeAt(tag: string, s: string, signed: bool, p: nat, g: Span)
    requires p <= |s| && MatchAt(Count(tag, signed), s, p) == Some(g)
    ensures forall c | c in s[g.lo..g.hi] :: InCount(c, signed)
  {
    CountIsRegexMatch(s, p, tag, signed);
    assert CountSplit(s, p + |tag|, signed, g);
    RunMembers(s, g.lo, g.hi, signed);
  }

  lemma RunMembers(s: string, lo: nat, hi: nat, signed: bool)
    requires lo <= hi <= |s| && forall k | lo <= k < hi :: InCount(s[k], signed)
    ensures forall c | c in s[lo..hi] :: InCount(c, signed)
  {
    forall c | c in s[lo..hi] ensures InCount(c, signed) {
      var k :| 0 <= k < hi - lo && s[lo..hi][k] == c;
      assert s[lo + k] == c;
    }
  }

  /** A `tag.*?([\d.]+%)` group is a non-empty run of digits and dots, then `%`. */
  lemma PercentGroupShape(tag: string, s: string)
    ensures match Group(Percent(tag), s)
      case Some(t) => |t| >= 2 && t[|t| - 1] == '%' && forall k | 0 <= k < |t| - 1 :: InPercent(t[k])
      case None => true
  {
    match Search(Percent(tag), s, 0)
    case Some((p, g)) => PercentShapeAt(tag, s, p, g);
    case None =>
  }

  lemma PercentShapeAt(tag: string, s: string, p: nat, g: Span)
    requires p <= |s| && MatchAt(Percent(tag), s, p) == Some(g)
    ensures var t := s[g.lo..g.hi]; |t| >= 2 && t[|t| - 1] == '%' && forall k | 0 <= k < |t| - 1 :: InPercent(t[k])
  {
    var q := p + |tag|;
    assert LazyPercent(s, q) == Some(g);
    LazyPercentIsLeftmost(s, q);
    var t := s[g.lo..g.hi];
    forall k | 0 <= k < |t| - 1 ensures InPercent(t[k]) {
      assert t[k] == s[g.lo + k];
    }
  }

  /** A date group has the shape `DDDD-DD-DD`. */
  lemma DateGroupShape(tag: string, s: string, skip: bool)
    ensures match Group(Date(tag, skip), s)
      case Some(t) => IsDateShape(t)
      case None => true
  {
    match Search(Date(tag, skip), s, 0)
    case Some((p, g)) => DateShapeAt(tag, s, skip, p, g);
    case None =>
  }

  lemma DateShapeAt(tag: string, s: string, skip: bool, p: nat, g: Span)
    requires p <= |s| && MatchAt(Date(tag, skip), s, p) == Some(g)
    ensures IsDateShape(s[g.lo..g.hi])
  {
    assert DateMatch(s, p + |tag|, skip) == Some(g);
  }
}
