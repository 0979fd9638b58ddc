/**
 * The first half of `preprocess_events_texts` (preprocessing/preprocess_texts.py:28-40): the
 * stripped text is cut into lines, and the lines are folded into blocks, a new block starting
 * at every line that opens with the anchor `- Name of person/ corporation that conducts the
 * transfer:`. `Groups` is the partition of the lines, `Blocks` the texts the buffer builds,
 * and `Segment` is the loop over the mutable buffer.
 */
module Segmenter {
  import opened Strings

  /** The label that introduces the person who conducts the transfer. */
  const Anchor: string := "Name of person/ corporation that conducts the transfer:"

  /** The literal part of `^\s*- Name of person/ corporation that conducts the transfer:`. */
  const AnchorItem: string := "- " + Anchor

  /** `re.match(r'^\s*- Name of person/ corporation that conducts the transfer:', line)`. */
  predicate IsAnchorLine(line: string) {
    StartsAt(line, SkipWs(line, 0), AnchorItem)
  }

  /** The regular expression matches: some whitespace prefix is followed by the item. */
  lemma IsAnchorLineMeaning(line: string)
    ensures IsAnchorLine(line) <==> exists k: nat | k <= |line| :: AllWs(line[..k]) && StartsAt(line, k, AnchorItem)
  {
    var a := SkipWs(line, 0);
    if IsAnchorLine(line) {
      assert AllWs(line[..a]);
    }
    forall k: nat | k <= |line| && AllWs(line[..k]) && StartsAt(line, k, AnchorItem) ensures a == k {
      assert AnchorItem[0] == '-' && line[k] == line[k..k + |AnchorItem|][0];
      forall j | 0 <= j < k ensures IsWs(line[j]) {
        assert line[..k][j] == line[j];
      }
      SkipWsAt(line, 0, k);
    }
  }

  // ---------------------------------------------------------------------------------------
  // The partition, for any test `cut` of the lines that start a new block

  /**
   * The lines, cut before every line that satisfies `cut` except the first line: the buffer is
   * flushed by such a line only when it holds something, and it is empty only before the first
   * line.
   */
  function GroupsBy(lines: seq<string>, cut: string -> bool): (gs: seq<seq<string>>)
    ensures (gs == []) == (lines == [])
    ensures forall k | 0 <= k < |gs| :: gs[k] != []
    decreases |lines|
  {
    if lines == [] then []
    else
      var gs := GroupsBy(lines[..|lines| - 1], cut);
      var l := lines[|lines| - 1];
      if gs == [] || cut(l) then gs + [[l]]
      else gs[..|gs| - 1] + [gs[|gs| - 1] + [l]]
  }

  /** The groups of the lines: cut before every anchor line. */
  function Groups(lines: seq<string>): seq<seq<string>> {
    GroupsBy(lines, IsAnchorLine)
  }

  function Flatten(gs: seq<seq<string>>): seq<string> {
    if gs == [] then [] else Flatten(gs[..|gs| - 1]) + gs[|gs| - 1]
  }

  lemma FlattenSnoc(gs: seq<seq<string>>, g: seq<string>)
    ensures Flatten(gs + [g]) == Flatten(gs) + g
  {
    assert (gs + [g])[..|gs|] == gs;
  }

  /**
   * The cuts of a grouping are at the lines that satisfy `cut`: no group is empty, every group
   * but the first starts with such a line, and no group holds one after its first line.
   */
  ghost predicate CutAt(gs: seq<seq<string>>, cut: string -> bool) {
    && (forall k | 0 <= k < |gs| :: gs[k] != [])
    && (forall k | 0 < k < |gs| :: cut(gs[k][0]))
    && (forall k, j | 0 <= k < |gs| && 0 < j < |gs[k]| :: !cut(gs[k][j]))
  }

  /** No line is lost, duplicated or moved: the groups put back together are the lines. */
  lemma {:induction false} GroupsPartition(lines: seq<string>, cut: string -> bool)
    ensures Flatten(GroupsBy(lines, cut)) == lines
    decreases |lines|
  {
    if lines != [] {
      var init, l := lines[..|lines| - 1], lines[|lines| - 1];
      var gs := GroupsBy(init, cut);
      GroupsPartition(init, cut);
      assert lines == init + [l];
      if gs == [] || cut(l) {
        FlattenSnoc(gs, [l]);
      } else {
        FlattenExtend(gs, l);
      }
    }
  }

  /** Adding a line to the last group adds it at the end of the flattened lines. */
  lemma FlattenExtend(gs: seq<seq<string>>, l: string)
    requires gs != []
    ensures Flatten(gs[..|gs| - 1] + [gs[|gs| - 1] + [l]]) == Flatten(gs) + [l]
  {
    var n := |gs|;
    SnocSplit(gs);
    FlattenExtendLast(gs[..n - 1], gs[n - 1], l);
  }

  lemma SnocSplit<T>(s: seq<T>)
    requires s != []
    ensures s == s[..|s| - 1] + [s[|s| - 1]]
  {
  }

  lemma FlattenExtendLast(init: seq<seq<string>>, g: seq<string>, l: string)
    ensures Flatten(init + [g + [l]]) == Flatten(init + [g]) + [l]
  {
    FlattenSnoc(init, g + [l]);
    FlattenSnoc(init, g);
    SnocAssoc(Flatten(init), g, l);
  }

  /** A one-step equality kept apart for the solver's sake (see Strings.EqualChain). */
  lemma SnocAssoc(a: seq<string>, b: seq<string>, l: string)
    ensures a + (b + [l]) == (a + b) + [l]
  {
  }

  /** The first group starts with the first line, so any preamble before the first cut is group 0. */
  lemma {:induction false} GroupsStartWithFirstLine(lines: seq<string>, cut: string -> bool)
    requires lines != []
    ensures GroupsBy(lines, cut)[0][0] == lines[0]
    decreases |lines|
  {
    var init := lines[..|lines| - 1];
    if init != [] {
      GroupsStartWithFirstLine(init, cut);
      assert lines[0] == init[0];
    }
  }

  /** The groups are cut exactly at the lines that satisfy `cut`. */
  lemma {:induction false} GroupsCutAt(lines: seq<string>, cut: string -> bool)
    ensures CutAt(GroupsBy(lines, cut), cut)
    decreases |lines|
  {
    if lines != [] {
      var init, l := lines[..|lines| - 1], lines[|lines| - 1];
      var gs := GroupsBy(init, cut);
      GroupsCutAt(init, cut);
      if gs == [] || cut(l) {
        CutAtNew(gs, l, cut);
      } else {
        CutAtExtend(gs, l, cut);
      }
    }
  }

  lemma CutAtNew(gs: seq<seq<string>>, l: string, cut: string -> bool)
    requires CutAt(gs, cut) && (gs == [] || cut(l))
    ensures CutAt(gs + [[l]], cut)
  {
    var hs := gs + [[l]];
    forall k, j | 0 <= k < |hs| && 0 < j < |hs[k]| ensures !cut(hs[k][j]) {
      assert k < |gs| && hs[k] == gs[k];
    }
  }

  lemma CutAtExtend(gs: seq<seq<string>>, l: string, cut: string -> bool)
    requires CutAt(gs, cut) && gs != [] && !cut(l)
    ensures CutAt(gs[..|gs| - 1] + [gs[|gs| - 1] + [l]], cut)
  {
    var n := |gs|;
    var hs := gs[..n - 1] + [gs[n - 1] + [l]];
    forall k | 0 < k < |hs| ensures cut(hs[k][0]) {
      assert hs[k][0] == gs[k][0];
    }
    forall k, j | 0 <= k < |hs| && 0 < j < |hs[k]| ensures !cut(hs[k][j]) {
      if k < n - 1 {
        assert hs[k] == gs[k];
      } else if j < |gs[n - 1]| {
        assert hs[k][j] == gs[n - 1][j];
      }
    }
  }

  /**
   * The cuts determine the partition: any grouping of the lines whose cuts are at the lines
   * that satisfy `cut` is `GroupsBy(lines, cut)`.
   */
  lemma {:induction false} GroupsUnique(lines: seq<string>, hs: seq<seq<string>>, cut: string -> bool)
    requires Flatten(hs) == lines && CutAt(hs, cut)
    ensures hs == GroupsBy(lines, cut)
    decreases |lines|
  {
    if hs != [] {
      var n := |hs|;
      var last := hs[n - 1];
      var l := last[|last| - 1];
      var init := lines[..|lines| - 1];
      FlattenSnoc(hs[..n - 1], last);
      assert hs == hs[..n - 1] + [last];
      assert last == last[..|last| - 1] + [l];
      assert init == Flatten(hs[..n - 1]) + last[..|last| - 1];
      assert lines == init + [l];
      if |last| == 1 {
        CutAtDropLast(hs, cut);
        GroupsUnique(init, hs[..n - 1], cut);
        assert n > 1 ==> cut(l);
      } else {
        var hs' := hs[..n - 1] + [last[..|last| - 1]];
        CutAtShrink(hs, cut);
        FlattenSnoc(hs[..n - 1], last[..|last| - 1]);
        GroupsUnique(init, hs', cut);
        assert hs'[..n - 1] == hs[..n - 1];
      }
    }
  }

  lemma CutAtDropLast(hs: seq<seq<string>>, cut: string -> bool)
    requires CutAt(hs, cut) && hs != []
    ensures CutAt(hs[..|hs| - 1], cut)
  {
    var gs := hs[..|hs| - 1];
    forall k, j | 0 <= k < |gs| && 0 < j < |gs[k]| ensures !cut(gs[k][j]) {
      assert gs[k] == hs[k];
    }
  }

  lemma CutAtShrink(hs: seq<seq<string>>, cut: string -> bool)
    requires CutAt(hs, cut) && hs != [] && |hs[|hs| - 1]| > 1
    ensures var last := hs[|hs| - 1];
      && CutAt(hs[..|hs| - 1] + [last[..|last| - 1]], cut)
      && !cut(last[|last| - 1])
  {
    var n := |hs|;
    var last := hs[n - 1];
    var gs := hs[..n - 1] + [last[..|last| - 1]];
    forall k | 0 < k < |gs| ensures cut(gs[k][0]) {
      assert gs[k][0] == hs[k][0];
    }
    forall k, j | 0 <= k < |gs| && 0 < j < |gs[k]| ensures !cut(gs[k][j]) {
      assert gs[k][j] == hs[k][j];
    }
  }

  // ---------------------------------------------------------------------------------------
  // The blocks

  /** The buffer after the lines of `g`: `" " + line.strip()` for each line in turn. */
  function BufferOf(g: seq<string>): (r: string)
    ensures (r == "") == (g == [])
    decreases |g|
  {
    if g == [] then "" else BufferOf(g[..|g| - 1]) + " " + Strip(g[|g| - 1])
  }

  /** What `summaries.append(buffer.strip())` appends for the group `g`. */
  function BlockText(g: seq<string>): string {
    Strip(BufferOf(g))
  }

  function BlockTexts(gs: seq<seq<string>>): (bs: seq<string>)
    ensures |bs| == |gs|
    ensures forall k | 0 <= k < |gs| :: bs[k] == BlockText(gs[k])
    decreases |gs|
  {
    if gs == [] then [] else BlockTexts(gs[..|gs| - 1]) + [BlockText(gs[|gs| - 1])]
  }

  /** The blocks of the lines, in order. */
  function Blocks(lines: seq<string>): seq<string> {
    BlockTexts(Groups(lines))
  }

  /** The lines `text.strip().splitlines()` that the fold runs over. */
  function TextLines(text: string): seq<string> {
    SplitLines(Strip(text))
  }

  /**
   * `summaries` and `buffer` after the lines `ls`: the blocks of every group but the last, and
   * the buffer of the last group (empty before the first line).
   */
  function FoldState(ls: seq<string>, cut: string -> bool): (seq<string>, string) {
    var gs := GroupsBy(ls, cut);
    if gs == [] then ([], "") else (BlockTexts(gs[..|gs| - 1]), BufferOf(gs[|gs| - 1]))
  }

  /** One turn of the loop at lines 33-38 when the line flushes a buffer that holds something. */
  lemma FoldFlush(ls: seq<string>, l: string, cut: string -> bool)
    requires cut(l) && ls != []
    ensures var (blocks, buffer) := FoldState(ls, cut);
      FoldState(ls + [l], cut) == (blocks + [Strip(buffer)], " " + Strip(l))
  {
    var gs := GroupsBy(ls, cut);
    var n := |gs|;
    assert (ls + [l])[..|ls|] == ls;
    assert (gs + [[l]])[..n] == gs;
    assert gs == gs[..n - 1] + [gs[n - 1]];
    assert BufferOf([l]) == " " + Strip(l);
  }

  /** One turn of the loop at lines 33-38 when the line goes into the buffer as it is. */
  lemma FoldAppend(ls: seq<string>, l: string, cut: string -> bool)
    requires !(cut(l) && ls != [])
    ensures var (blocks, buffer) := FoldState(ls, cut);
      FoldState(ls + [l], cut) == (blocks, buffer + " " + Strip(l))
  {
    var gs := GroupsBy(ls, cut);
    assert (ls + [l])[..|ls|] == ls;
    if gs == [] {
      assert BufferOf([l]) == " " + Strip(l);
    } else {
      var n := |gs|;
      var g := gs[n - 1] + [l];
      assert (gs[..n - 1] + [g])[..n - 1] == gs[..n - 1];
      assert g[..|g| - 1] == gs[n - 1];
    }
  }

  /** `summaries` after the first loop of `preprocess_events_texts` (lines 29-40). */
  method Segment(text: string) returns (blocks: seq<string>)
    ensures blocks == Blocks(TextLines(text))
  {
    var lines := SplitLines(Strip(text));
    blocks := FoldLines(lines);
  }

  /** The loop at lines 32-40 over the mutable `buffer`. */
  method FoldLines(lines: seq<string>) returns (blocks: seq<string>)
    ensures blocks == Blocks(lines)
  {
    blocks := [];
    var buffer := "";
    for i := 0 to |lines|
      invariant (blocks, buffer) == FoldState(lines[..i], IsAnchorLine)
    {
      assert lines[..i + 1] == lines[..i] + [lines[i]];
      if IsAnchorLine(lines[i]) && buffer != "" {
        FoldFlush(lines[..i], lines[i], IsAnchorLine);
      } else {
        FoldAppend(lines[..i], lines[i], IsAnchorLine);
      }
      if IsAnchorLine(lines[i]) {
        if buffer != "" {
          blocks := blocks + [Strip(buffer)];
          buffer := "";
        }
      }
      buffer := buffer + " " + Strip(lines[i]);
    }
    assert lines[..|lines|] == lines;
    if buffer != "" {
      blocks := blocks + [Strip(buffer)];
    }
  }

  // ---------------------------------------------------------------------------------------
  // What the blocks are

  /** Text that is only whitespace has no blocks, and every other text has at least one. */
  lemma NoBlocksIffBlank(text: string)
    ensures Blocks(TextLines(text)) == [] <==> AllWs(text)
  {
    StripSpec(text);
  }

  /** `[line.strip() for line in g]`. */
  function StrippedLines(g: seq<string>): (r: seq<string>)
    ensures |r| == |g|
    ensures forall k | 0 <= k < |g| :: r[k] == Strip(g[k])
    decreases |g|
  {
    if g == [] then [] else StrippedLines(g[..|g| - 1]) + [Strip(g[|g| - 1])]
  }

  /** The buffer is a space followed by the stripped lines joined by single spaces. */
  lemma {:induction false} BufferIsJoin(g: seq<string>)
    requires g != []
    ensures BufferOf(g) == " " + Join(StrippedLines(g), " ")
    decreases |g|
  {
    var init, x := g[..|g| - 1], Strip(g[|g| - 1]);
    if init == [] {
      assert StrippedLines(g) == [x];
    } else {
      var j := Join(StrippedLines(init), " ");
      BufferIsJoin(init);
      JoinSnoc(StrippedLines(init), x, " ");
      assert StrippedLines(g) == StrippedLines(init) + [x];
      SpaceJoinSnoc(BufferOf(init), j, x);
    }
  }

  /** No line is whitespace only. */
  ghost predicate NoBlankLine(lines: seq<string>) {
    forall k | 0 <= k < |lines| :: !AllWs(lines[k])
  }

  /**
   * When no line is blank, the blocks joined by single spaces are the stripped lines joined by
   * single spaces: segmenting neither loses nor repeats text. (A blank line at the end of a
   * block would lose one space to the block's `strip`.)
   */
  lemma BlocksJoinAsLines(lines: seq<string>)
    requires NoBlankLine(lines)
    ensures Join(Blocks(lines), " ") == Join(StrippedLines(lines), " ")
  {
    GroupsPartition(lines, IsAnchorLine);
    BlocksJoinOfGroups(Groups(lines));
  }

  lemma {:induction false} BlocksJoinOfGroups(gs: seq<seq<string>>)
    requires forall k | 0 <= k < |gs| :: gs[k] != []
    requires NoBlankLine(Flatten(gs))
    ensures Join(BlockTexts(gs), " ") == Join(StrippedLines(Flatten(gs)), " ")
    decreases |gs|
  {
    if gs != [] {
      var init, g := gs[..|gs| - 1], gs[|gs| - 1];
      SnocSplit(gs);
      NoBlankSplit(init, g);
      if init == [] {
        SingleGroupJoin(g);
      } else {
        BlocksJoinOfGroups(init);
        GroupsJoinStep(init, g);
      }
    }
  }

  lemma SingleGroupJoin(g: seq<string>)
    requires g != [] && NoBlankLine(g)
    ensures Join(BlockTexts([g]), " ") == Join(StrippedLines(Flatten([g])), " ")
  {
    GroupBlockIsJoin(g);
    assert [g][..0] == [];
    assert BlockTexts([g]) == [BlockText(g)];
    assert Flatten([g]) == g;
  }

  lemma GroupsJoinStep(init: seq<seq<string>>, g: seq<string>)
    requires init != [] && (forall k | 0 <= k < |init| :: init[k] != []) && g != []
    requires NoBlankLine(g)
    requires Join(BlockTexts(init), " ") == Join(StrippedLines(Flatten(init)), " ")
    ensures Join(BlockTexts(init + [g]), " ") == Join(StrippedLines(Flatten(init + [g])), " ")
  {
    GroupBlockIsJoin(g);
    FlattenSnoc(init, g);
    StrippedLinesAppend(Flatten(init), g);
    assert (init + [g])[..|init|] == init;
    assert BlockTexts(init + [g]) == BlockTexts(init) + [BlockText(g)];
    FlattenNonEmpty(init);
    JoinStep(BlockTexts(init), BlockText(g), StrippedLines(Flatten(init)), StrippedLines(g));
  }

  lemma NoBlankSplit(init: seq<seq<string>>, g: seq<string>)
    requires NoBlankLine(Flatten(init + [g]))
    ensures NoBlankLine(Flatten(init)) && NoBlankLine(g)
  {
    FlattenSnoc(init, g);
    var fi := Flatten(init);
    assert forall k | 0 <= k < |fi| :: fi[k] == Flatten(init + [g])[k];
    assert forall k | 0 <= k < |g| :: g[k] == Flatten(init + [g])[|fi| + k];
  }

  lemma JoinStep(bs: seq<string>, b: string, ls: seq<string>, gl: seq<string>)
    requires bs != [] && ls != [] && gl != []
    requires Join(bs, " ") == Join(ls, " ") && b == Join(gl, " ")
    ensures Join(bs + [b], " ") == Join(ls + gl, " ")
  {
    JoinSnoc(bs, b, " ");
    JoinAppend(ls, gl, " ");
  }

  lemma {:induction false} FlattenNonEmpty(gs: seq<seq<string>>)
    requires gs != [] && forall k | 0 <= k < |gs| :: gs[k] != []
    ensures Flatten(gs) != []
    decreases |gs|
  {
    if |gs| > 1 {
      FlattenNonEmpty(gs[..|gs| - 1]);
    }
  }

  lemma StrippedLinesAppend(a: seq<string>, b: seq<string>)
    ensures StrippedLines(a + b) == StrippedLines(a) + StrippedLines(b)
  {
    var l, r := StrippedLines(a + b), StrippedLines(a) + StrippedLines(b);
    forall k | 0 <= k < |a + b| ensures l[k] == r[k] {
      if k < |a| {
        assert (a + b)[k] == a[k];
      } else {
        assert (a + b)[k] == b[k - |a|];
      }
    }
  }

  /** With no blank line, a block is exactly its stripped lines joined by single spaces. */
  lemma GroupBlockIsJoin(g: seq<string>)
    requires g != [] && NoBlankLine(g)
    ensures BlockText(g) == Join(StrippedLines(g), " ")
  {
    BlockIsJoin(g);
    StrippedNonBlank(g);
    JoinStripped(StrippedLines(g), " ");
  }

  lemma StrippedNonBlank(g: seq<string>)
    requires NoBlankLine(g)
    ensures forall k | 0 <= k < |g| :: var x := StrippedLines(g)[k]; x != "" && !IsWs(x[0]) && !IsWs(x[|x| - 1])
  {
    forall k | 0 <= k < |g| ensures var x := StrippedLines(g)[k]; x != "" && !IsWs(x[0]) && !IsWs(x[|x| - 1]) {
      StripSpec(g[k]);
    }
  }

  lemma JoinStripped(xs: seq<string>, sep: string)
    requires xs != [] && forall k | 0 <= k < |xs| :: xs[k] != "" && !IsWs(xs[k][0]) && !IsWs(xs[k][|xs[k]| - 1])
    ensures Strip(Join(xs, sep)) == Join(xs, sep)
  {
    JoinEnds(xs, sep);
    StripNoOp(Join(xs, sep));
  }

  /** A one-step equality kept apart for the solver's sake (see Strings.EqualChain). */
  lemma SpaceJoinSnoc(b: string, j: string, x: string)
    requires b == " " + j
    ensures b + " " + x == " " + (j + " " + x)
  {
  }

  /** A block is its stripped lines joined by single spaces, stripped once more. */
  lemma BlockIsJoin(g: seq<string>)
    requires g != []
    ensures BlockText(g) == Strip(Join(StrippedLines(g), " "))
  {
    BufferIsJoin(g);
    StripPrefixWs(" ", Join(StrippedLines(g), " "));
  }

  lemma {:induction false} JoinStartsWith(xs: seq<string>, sep: string)
    requires xs != []
    ensures |xs[0]| <= |Join(xs, sep)| && Join(xs, sep)[..|xs[0]|] == xs[0]
  {
  }

  /** The anchor item begins and ends with characters that are not whitespace. */
  lemma AnchorItemEnds()
    ensures AnchorItem != "" && !IsWs(AnchorItem[0]) && !IsWs(AnchorItem[|AnchorItem| - 1])
  {
    assert AnchorItem[0] == '-' && AnchorItem[|AnchorItem| - 1] == ':';
  }

  /** A line that opens with `p` after its leading whitespace still starts with `p` once stripped. */
  lemma StrippedStartsWith(l: string, p: string)
    requires p != "" && !IsWs(p[0]) && !IsWs(p[|p| - 1])
    requires StartsAt(l, SkipWs(l, 0), p)
    ensures |p| <= |Strip(l)| && Strip(l)[..|p|] == p
  {
    var a := SkipWs(l, 0);
    var y := l[a..];
    assert y[..|p|] == p;
    StripKeepsPrefix(y, p);
    SkippedIsWs(l, a);
    StripPrefixWs(l[..a], y);
  }

  lemma SkippedIsWs(l: string, a: nat)
    requires a == SkipWs(l, 0)
    ensures AllWs(l[..a]) && l == l[..a] + l[a..]
  {
  }

  /** A group whose first line starts with `p` after whitespace gives a block that starts with `p`. */
  lemma BlockStartsWith(g: seq<string>, p: string)
    requires p != "" && !IsWs(p[0]) && !IsWs(p[|p| - 1])
    requires g != [] && StartsAt(g[0], SkipWs(g[0], 0), p)
    ensures |p| <= |BlockText(g)| && BlockText(g)[..|p|] == p
  {
    StrippedStartsWith(g[0], p);
    var j := Join(StrippedLines(g), " ");
    JoinStartsWith(StrippedLines(g), " ");
    assert j[..|p|] == Strip(g[0])[..|p|];
    StripKeepsPrefix(j, p);
    BlockIsJoin(g);
  }

  /** A block whose first line is an anchor line starts with `- Name of person/ corporation that conducts the transfer:`. */
  lemma BlockStartsWithAnchor(g: seq<string>)
    requires g != [] && IsAnchorLine(g[0])
    ensures |AnchorItem| <= |BlockText(g)| && BlockText(g)[..|AnchorItem|] == AnchorItem
  {
    AnchorItemEnds();
    BlockStartsWith(g, AnchorItem);
  }

  /** Every block after the first starts with the anchor item, so any preamble before the first anchor line is block 0. */
  lemma LaterBlocksStartWithAnchor(lines: seq<string>)
    ensures forall k | 0 < k < |Blocks(lines)| ::
      |AnchorItem| <= |Blocks(lines)[k]| && Blocks(lines)[k][..|AnchorItem|] == AnchorItem
  {
    GroupsCutAt(lines, IsAnchorLine);
    var gs := Groups(lines);
    forall k | 0 < k < |gs|
      ensures |AnchorItem| <= |BlockText(gs[k])| && BlockText(gs[k])[..|AnchorItem|] == AnchorItem
    {
      BlockStartsWithAnchor(gs[k]);
    }
  }
}
