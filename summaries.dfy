/**
 * The summariser proper (preprocessing/preprocess_texts.py:42-94): each block that is not a
 * financial statement yields ten fields by independent lookups, two optional metric suffixes
 * and one line of the fixed template; the lines are joined with newlines.
 */
module Summaries {
  import opened Wrappers
  import opened Strings
  import opened Scanners
  import opened Metrics
  import opened Segmenter
  import opened Lists

  /** Blocks containing this phrase are skipped. */
  const FinancialStatement: string := "Financial Statement"

  // The lookups of preprocessing/preprocess_texts.py:52-67.
  const NamePattern: Pattern := UpToDash("transfer:")
  const PositionPattern: Pattern := UpToDash("Current position:")
  const TxTypePattern: Pattern := UpToDash("Type of transaction registered:")
  const SharesBeforePattern: Pattern := Count("before the transaction:", false)
  const PercentBeforePattern: Pattern := Percent("before the transaction:")
  const SharesRegisteredPattern: Pattern := Count("Number of shares registered:", false)
  const AcquiredPattern: Pattern := Count("Acquired shares:", true)
  const SharesAfterPattern: Pattern := Count("after the transaction:", false)
  const PercentAfterPattern: Pattern := Percent("after the transaction:")
  const ExecDatePattern: Pattern := Date("Exec:", true)

  /** The ten fields of one block, each "" when its lookup finds nothing. */
  datatype Fields = Fields(
    name: string, position: string, txType: string,
    sharesBefore: string, percentBefore: string,
    sharesRegistered: string, acquiredShares: string,
    sharesAfter: string, percentAfter: string,
    execDate: string)

  /** The lookups of one block; the four share counts lose their commas. */
  function ExtractFields(entry: string): Fields {
    Fields(
      Get(NamePattern, entry), Get(PositionPattern, entry), Get(TxTypePattern, entry),
      RemoveChar(Get(SharesBeforePattern, entry), ','), Get(PercentBeforePattern, entry),
      RemoveChar(Get(SharesRegisteredPattern, entry), ','), RemoveChar(Get(AcquiredPattern, entry), ','),
      RemoveChar(Get(SharesAfterPattern, entry), ','), Get(PercentAfterPattern, entry),
      Get(ExecDatePattern, entry))
  }

  /** `""`, or a run of digits and dots closed by `%` (what `([\d.]+%)` captures). */
  ghost predicate IsPercentText(t: string) {
    t == "" || (|t| >= 2 && t[|t| - 1] == '%' && forall k | 0 <= k < |t| - 1 :: InPercent(t[k]))
  }

  /** A text free of `-` and of newlines (what `(.*?)\s*-` captures). */
  ghost predicate IsLabelText(t: string) {
    '-' !in t && '\n' !in t
  }

  /** What the lookups can produce, field by field. */
  ghost predicate WellShaped(f: Fields) {
    && IsLabelText(f.name) && IsLabelText(f.position) && IsLabelText(f.txType)
    && AllDigits(f.sharesBefore) && AllDigits(f.sharesRegistered) && AllDigits(f.sharesAfter)
    && (forall c | c in f.acquiredShares :: IsDigit(c) || c == '-')
    && IsPercentText(f.percentBefore) && IsPercentText(f.percentAfter)
    && (f.execDate == "" || IsDateShape(f.execDate))
  }

  /** The fields `float()` is applied to are over the characters the model of `float()` covers. */
  ghost predicate Parseable(f: Fields) {
    && OverDecimalChars(f.sharesRegistered) && OverDecimalChars(f.sharesBefore)
    && (forall c | c in f.percentBefore :: IsDecimalChar(c) || c == '%')
    && (forall c | c in f.percentAfter :: IsDecimalChar(c) || c == '%')
  }

  /**
   * Whatever the block, the name, position and type stop before any `-` and stay on one line,
   * the counts are digits (with `-` for the acquired count), the percentages are "" or
   * `[\d.]+%`, and the date is "" or `DDDD-DD-DD`.
   */
  lemma ExtractFieldsShape(entry: string)
    ensures WellShaped(ExtractFields(entry))
  {
    LabelShape("transfer:", entry);
    LabelShape("Current position:", entry);
    LabelShape("Type of transaction registered:", entry);
    CountShape("before the transaction:", entry, false);
    CountShape("Number of shares registered:", entry, false);
    CountShape("Acquired shares:", entry, true);
    CountShape("after the transaction:", entry, false);
    PercentShape("before the transaction:", entry);
    PercentShape("after the transaction:", entry);
    DateShape("Exec:", entry);
  }

  lemma LabelShape(tag: string, entry: string)
    ensures IsLabelText(Get(UpToDash(tag), entry))
  {
    DashGroupShape(tag, entry);
    match Group(UpToDash(tag), entry)
    case Some(t) => StripMembers(t);
    case None =>
  }

  lemma CountShape(tag: string, entry: string, signed: bool)
    ensures forall c | c in RemoveChar(Get(Count(tag, signed), entry), ',') :: IsDigit(c) || (signed && c == '-')
  {
    CountGroupShape(tag, entry, signed);
    match Group(Count(tag, signed), entry)
    case Some(t) => StripMembers(t);
    case None =>
  }

  lemma PercentShape(tag: string, entry: string)
    ensures IsPercentText(Get(Percent(tag), entry))
  {
    PercentGroupShape(tag, entry);
    match Group(Percent(tag), entry)
    case Some(t) => StripNoOp(t);
    case None =>
  }

  lemma DateShape(tag: string, entry: string)
    ensures Get(Date(tag, true), entry) == "" || IsDateShape(Get(Date(tag, true), entry))
  {
    DateGroupShape(tag, entry, true);
    match Group(Date(tag, true), entry)
    case Some(t) => StripNoOp(t);
    case None =>
  }

  /** Well-shaped fields are within reach of the model of `float()`. */
  lemma WellShapedParseable(f: Fields)
    requires WellShaped(f)
    ensures Parseable(f)
  {
    PercentTextChars(f.percentBefore);
    PercentTextChars(f.percentAfter);
  }

  lemma PercentTextChars(t: string)
    requires IsPercentText(t)
    ensures forall c | c in t :: IsDecimalChar(c) || c == '%'
  {
    forall c | c in t ensures IsDecimalChar(c) || c == '%' {
      var k :| 0 <= k < |t| && t[k] == c;
    }
  }

  /** The template of preprocessing/preprocess_texts.py:86-90, its three f-strings one after the other. */
  function Render(f: Fields): string
    requires Parseable(f)
  {
    ActionPart(f) + HoldingPart(f) + AcquiredPart(f)
  }

  /** Line 87: who did what, how many shares, the registered suffix and the date. */
  function ActionPart(f: Fields): string
    requires Parseable(f)
  {
    f.name + " (" + f.position + ") executed " + Upper(f.txType) + " " + f.sharesRegistered + " shares"
    + RegisteredPctSuffix(f.sharesRegistered, f.sharesBefore) + " on " + f.execDate + " "
  }

  /** Line 88: the holdings before and after. */
  function HoldingPart(f: Fields): string {
    "from " + f.sharesBefore + " shares (" + f.percentBefore + ") to " + f.sharesAfter + " shares (" + f.percentAfter + "). "
  }

  /** Line 89: the acquired count and the change suffix. */
  function AcquiredPart(f: Fields): string
    requires Parseable(f)
  {
    "Acquired: " + f.acquiredShares + " shares" + PctChangeSuffix(f.percentBefore, f.percentAfter) + "."
  }

  /** The summary line of one block. */
  function Summarize(entry: string): string {
    var f := ExtractFields(entry);
    ExtractFieldsShape(entry);
    WellShapedParseable(f);
    Render(f)
  }

  /** A rendered summary is one line that ends with the full stop of the template, so it is never blank. */
  lemma RenderOneLine(f: Fields)
    requires WellShaped(f)
    ensures Parseable(f)
    ensures '\n' !in Render(f)
    ensures Render(f)[|Render(f)| - 1] == '.' && !AllWs(Render(f))
  {
    WellShapedParseable(f);
    FieldsOneLine(f);
    SuffixesOneLine(f.sharesRegistered, f.sharesBefore, f.percentBefore, f.percentAfter);
    ActionPartOneLine(f);
    HoldingPartOneLine(f);
    AcquiredPartOneLine(f);
    ThreeParts(ActionPart(f), HoldingPart(f), AcquiredPart(f));
  }

  /** No field spans two lines. */
  ghost predicate FieldsOnOneLine(f: Fields) {
    && '\n' !in f.name && '\n' !in f.position && '\n' !in f.txType
    && '\n' !in f.sharesBefore && '\n' !in f.percentBefore
    && '\n' !in f.sharesRegistered && '\n' !in f.acquiredShares
    && '\n' !in f.sharesAfter && '\n' !in f.percentAfter
    && '\n' !in f.execDate
  }

  lemma FieldsOneLine(f: Fields)
    requires WellShaped(f)
    ensures FieldsOnOneLine(f)
  {
    PercentTextChars(f.percentBefore);
    PercentTextChars(f.percentAfter);
    if f.execDate != "" {
      forall k | 0 <= k < 10 ensures f.execDate[k] != '\n' {
      }
    }
  }

  lemma ThreeParts(x: string, y: string, z: string)
    requires '\n' !in x && '\n' !in y && '\n' !in z && z != "" && z[|z| - 1] == '.'
    ensures '\n' !in x + y + z && (x + y + z)[|x + y + z| - 1] == '.' && !AllWs(x + y + z)
  {
    assert (x + y + z)[|x + y + z| - 1] == z[|z| - 1];
  }

  lemma ActionPartOneLine(f: Fields)
    requires FieldsOnOneLine(f) && Parseable(f)
    requires '\n' !in RegisteredPctSuffix(f.sharesRegistered, f.sharesBefore)
    ensures '\n' !in ActionPart(f)
  {
    UpperSpec(f.txType);
    assert '\n' !in Upper(f.txType) by {
      forall i | 0 <= i < |f.txType| ensures Upper(f.txType)[i] != '\n' {
        assert f.txType[i] in f.txType;
      }
    }
  }

  lemma HoldingPartOneLine(f: Fields)
    requires FieldsOnOneLine(f)
    ensures '\n' !in HoldingPart(f)
  {
  }

  lemma AcquiredPartOneLine(f: Fields)
    requires FieldsOnOneLine(f) && Parseable(f)
    requires '\n' !in PctChangeSuffix(f.percentBefore, f.percentAfter)
    ensures var a := AcquiredPart(f); '\n' !in a && a[|a| - 1] == '.'
  {
  }

  /** Every summary is one non-blank line. */
  lemma SummaryOneLine(entry: string)
    ensures '\n' !in Summarize(entry) && !AllWs(Summarize(entry))
  {
    ExtractFieldsShape(entry);
    RenderOneLine(ExtractFields(entry));
  }

  /** Blocks that do not contain "Financial Statement" are the ones summarised (lines 45-46). */
  predicate NotFinancialStatement(block: string) {
    !Contains(block, FinancialStatement)
  }

  /** The summaries of the blocks that are not financial statements, in block order (lines 44-92). */
  function KeptSummaries(blocks: seq<string>): seq<string> {
    KeepMap(blocks, NotFinancialStatement, Summarize)
  }

  /** `preprocess_events_texts`: the summaries of the blocks of `text`, joined with newlines. */
  function SummaryText(text: string): string {
    Join(KeptSummaries(Blocks(TextLines(text))), "\n")
  }

  /**
   * Every block that is not a financial statement yields exactly its summary, and the others
   * yield nothing: the summaries distribute over concatenation of the blocks, in order.
   */
  lemma KeptSummariesSpec(xs: seq<string>, ys: seq<string>, b: string)
    ensures KeptSummaries(xs + ys) == KeptSummaries(xs) + KeptSummaries(ys)
    ensures KeptSummaries([b]) == if Contains(b, FinancialStatement) then [] else [Summarize(b)]
  {
    KeepMapAppend(xs, ys, NotFinancialStatement, Summarize);
    KeepMapOne(b, NotFinancialStatement, Summarize);
  }

  /**
   * The first summary is the one of the first block that is not a financial statement, and
   * there is none exactly when every block is one.
   */
  lemma KeptSummariesFirst(blocks: seq<string>)
    ensures KeptSummaries(blocks) == [] <==> forall k | 0 <= k < |blocks| :: !NotFinancialStatement(blocks[k])
    ensures KeptSummaries(blocks) != [] ==>
      exists j: nat :: FirstKept(blocks, NotFinancialStatement, j) && KeptSummaries(blocks)[0] == Summarize(blocks[j])
  {
    KeepMapEmpty(blocks, NotFinancialStatement, Summarize);
    if KeptSummaries(blocks) != [] {
      KeepMapFirst(blocks, NotFinancialStatement, Summarize);
    }
  }

  /** No kept summary spans two lines, and none is blank. */
  lemma KeptSummariesOneLine(blocks: seq<string>)
    ensures forall k | 0 <= k < |KeptSummaries(blocks)| ::
      '\n' !in KeptSummaries(blocks)[k] && !AllWs(KeptSummaries(blocks)[k])
  {
    var ss := KeptSummaries(blocks);
    KeepMapMembers(blocks, NotFinancialStatement, Summarize);
    forall k | 0 <= k < |ss| ensures '\n' !in ss[k] && !AllWs(ss[k]) {
      assert ss[k] in ss;
      var b :| b in blocks && NotFinancialStatement(b) && ss[k] == Summarize(b);
      SummaryOneLine(b);
    }
  }

  /** Splitting the output at newlines gives back the summaries, one per kept block, in order. */
  lemma SummaryTextLines(text: string)
    ensures var ss := KeptSummaries(Blocks(TextLines(text)));
      && (ss == [] ==> SummaryText(text) == "")
      && (ss != [] ==> Split(SummaryText(text), '\n') == ss)
  {
    var ss := KeptSummaries(Blocks(TextLines(text)));
    if ss != [] {
      KeptSummariesOneLine(Blocks(TextLines(text)));
      SplitJoin(ss, '\n');
    }
  }

  /** Lines 28-94: segment the text, then summarise the blocks that are not financial statements. */
  method PreprocessEventsTexts(text: string) returns (out: string)
    ensures out == SummaryText(text)
  {
    var summaries := Segment(text);
    var finalOutputs: seq<string> := [];
    for i := 0 to |summaries|
      invariant finalOutputs == KeptSummaries(summaries[..i])
    {
      var entry := summaries[i];
      KeepMapStep(summaries, i, NotFinancialStatement, Summarize);
      if !Contains(entry, FinancialStatement) {
        finalOutputs := finalOutputs + [Summarize(entry)];
      }
    }
    assert summaries[..|summaries|] == summaries;
    out := Join(finalOutputs, "\n");
  }
}
