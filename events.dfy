/**
 * The two event-level entry points (preprocessing/preprocess_texts.py:4-25 and 97-128): the
 * filter that turns transaction events into texts with their dates appended, and the
 * orchestrator that replaces each transaction event's description by its summary.
 */
module Events {
  import opened Wrappers
  import opened Strings
  import opened Lists
  import opened Scanners
  import opened Segmenter
  import opened Summaries

  /**
   * An event record: the three keys the pipeline reads or writes, each of which may be missing
   * from the dictionary, and every other key with its value, kept verbatim. `extra` is meant
   * to hold none of the three keys `event_desc`, `notify_date` and `exer_date` (WellFormed);
   * the operations never read those keys from it.
   */
  datatype Event<V> = Event(desc: Option<string>, notify: Option<string>, exer: Option<string>, extra: map<string, V>)

  /** Each key of the dictionary is represented once: the three named keys are not among the others. */
  predicate WellFormed<V>(e: Event<V>) {
    "event_desc" !in e.extra && "notify_date" !in e.extra && "exer_date" !in e.extra
  }

  /** `event.get("event_desc", "")`. */
  function Desc<V>(e: Event<V>): string {
    e.desc.GetOr("")
  }

  /** A transaction event: its description holds the phrase that opens a disclosure item. */
  predicate IsTransaction<V>(e: Event<V>) {
    Contains(Desc(e), Anchor)
  }

  /** The description with the notification and execution dates appended (lines 22 and 110). */
  function EnhancedDesc<V>(e: Event<V>): string {
    Desc(e) + " Notify: " + e.notify.GetOr("") + ", Exec: " + e.exer.GetOr("")
  }

  // ---------------------------------------------------------------------------------------
  // preprocess_events_to_text

  /** The filter keeps transaction events that are not financial statements (lines 14-19). */
  predicate Selected<V>(e: Event<V>) {
    !Contains(Desc(e), FinancialStatement) && IsTransaction(e)
  }

  /** The texts of the selected events, in input order. */
  function SelectedTexts<V>(events: seq<Event<V>>): seq<string> {
    KeepMap(events, Selected, EnhancedDesc)
  }

  /** Lines 4-25. */
  method PreprocessEventsToText<V>(events: seq<Event<V>>) returns (textBlocks: seq<string>)
    ensures textBlocks == SelectedTexts(events)
  {
    textBlocks := [];
    for i := 0 to |events|
      invariant textBlocks == SelectedTexts(events[..i])
    {
      KeepMapStep(events, i, Selected, EnhancedDesc);
      var event := events[i];
      var eventDesc := event.desc.GetOr("");
      var notifyDate := event.notify.GetOr("");
      var execDate := event.exer.GetOr("");
      if Contains(eventDesc, FinancialStatement) {
        continue;
      }
      if !Contains(eventDesc, Anchor) {
        continue;
      }
      var enhancedDesc := eventDesc + " Notify: " + notifyDate + ", Exec: " + execDate;
      textBlocks := textBlocks + [enhancedDesc];
    }
    assert events[..|events|] == events;
  }

  /**
   * The filter's output is, in input order, one text per selected event and nothing for the
   * others: it distributes over concatenation, and a single event gives its text exactly when
   * it is selected.
   */
  lemma SelectedTextsSpec<V>(xs: seq<Event<V>>, ys: seq<Event<V>>, e: Event<V>)
    ensures SelectedTexts(xs + ys) == SelectedTexts(xs) + SelectedTexts(ys)
    ensures SelectedTexts([e]) == if Selected(e) then [EnhancedDesc(e)] else []
  {
    KeepMapAppend(xs, ys, Selected, EnhancedDesc);
    KeepMapOne(e, Selected, EnhancedDesc);
  }

  /** Every text the filter returns is a selected event's description followed by its two dates. */
  lemma SelectedTextsMembers<V>(events: seq<Event<V>>)
    ensures forall t | t in SelectedTexts(events) :: exists e | e in events ::
      && !Contains(Desc(e), FinancialStatement) && Contains(Desc(e), Anchor)
      && t == Desc(e) + " Notify: " + e.notify.GetOr("") + ", Exec: " + e.exer.GetOr("")
  {
    KeepMapMembers(events, Selected, EnhancedDesc);
  }

  // ---------------------------------------------------------------------------------------
  // process_events_for_display

  /** `on (\d{4}-\d{2}-\d{2})`, the date recovered from the chosen description (line 117). */
  const OnDatePattern: Pattern := Date("on ", false)

  /** `[line.strip() for line in lines if line.strip()]` (line 113). */
  function NonBlankLines(lines: seq<string>): seq<string> {
    if lines == [] then []
    else (if Strip(lines[0]) != "" then [Strip(lines[0])] else []) + NonBlankLines(lines[1..])
  }

  /** The description a transaction event gets: its first non-blank summary line, or itself (lines 110-114). */
  function ChosenDesc<V>(e: Event<V>): string {
    var summaryLines := NonBlankLines(Split(SummaryText(EnhancedDesc(e)), '\n'));
    if summaryLines != [] then summaryLines[0] else Desc(e)
  }

  /** The first date after an `on ` in `summary`, or the event's own execution date (lines 117-118). */
  function RecoveredExer<V>(e: Event<V>, summary: string): string {
    match Group(OnDatePattern, summary)
    case Some(d) => d
    case None => e.exer.GetOr("")
  }

  /** One turn of the loop of lines 104-126. */
  function ProcessEvent<V>(e: Event<V>): Event<V> {
    if IsTransaction(e) then
      var summary := ChosenDesc(e);
      Event(Some(summary), Some(""), Some(RecoveredExer(e, summary)), e.extra)
    else e
  }

  /** Lines 97-128, calling the summariser of lines 28-94 on each transaction event. */
  method ProcessEventsForDisplay<V>(events: seq<Event<V>>) returns (processedEvents: seq<Event<V>>)
    ensures processedEvents == Mapped(events, ProcessEvent)
  {
    processedEvents := [];
    for i := 0 to |events|
      invariant processedEvents == Mapped(events[..i], ProcessEvent)
    {
      MappedStep(events, i, ProcessEvent);
      var event := events[i];
      var eventDesc := event.desc.GetOr("");
      if Contains(eventDesc, Anchor) {
        var enhancedDesc := eventDesc + " Notify: " + event.notify.GetOr("") + ", Exec: " + event.exer.GetOr("");
        var summaryText := PreprocessEventsTexts(enhancedDesc);
        var summaryLines := NonBlankLines(Split(summaryText, '\n'));
        var summary := if |summaryLines| > 0 then summaryLines[0] else eventDesc;
        var execDateMatch := Group(OnDatePattern, summary);
        var execDate := if execDateMatch.Some? then execDateMatch.value else event.exer.GetOr("");
        assert execDate == RecoveredExer(event, summary);
        var newEvent := Event(Some(summary), Some(""), Some(execDate), event.extra);
        TransactionStep(event, enhancedDesc, summaryText, summary);
        processedEvents := processedEvents + [newEvent];
      } else {
        processedEvents := processedEvents + [event];
      }
    }
    assert events[..|events|] == events;
  }

  lemma TransactionStep<V>(e: Event<V>, enhancedDesc: string, summaryText: string, summary: string)
    requires IsTransaction(e)
    requires enhancedDesc == Desc(e) + " Notify: " + e.notify.GetOr("") + ", Exec: " + e.exer.GetOr("")
    requires summaryText == SummaryText(enhancedDesc)
    requires summary == var ls := NonBlankLines(Split(summaryText, '\n')); if |ls| > 0 then ls[0] else Desc(e)
    ensures ProcessEvent(e) == Event(Some(summary), Some(""), Some(RecoveredExer(e, summary)), e.extra)
  {
  }

  /**
   * Only the three keys of a transaction event change: the other keys keep their values, the
   * notification date becomes "", and an event without the phrase comes back as it was.
   */
  lemma ProcessEventFrame<V>(e: Event<V>)
    ensures ProcessEvent(e).extra == e.extra
    ensures WellFormed(e) ==> WellFormed(ProcessEvent(e))
    ensures !IsTransaction(e) ==> ProcessEvent(e) == e
    ensures IsTransaction(e) ==> ProcessEvent(e).notify == Some("") && ProcessEvent(e).desc.Some? && ProcessEvent(e).exer.Some?
  {
  }

  /** Stripping every line and dropping the blank ones keeps the non-blank lines, stripped, in order. */
  lemma {:induction false} NonBlankLinesOfNonBlank(lines: seq<string>)
    requires forall k | 0 <= k < |lines| :: !AllWs(lines[k])
    ensures |NonBlankLines(lines)| == |lines|
    ensures forall k | 0 <= k < |lines| :: NonBlankLines(lines)[k] == Strip(lines[k])
    decreases |lines|
  {
    if lines != [] {
      StripSpec(lines[0]);
      NonBlankLinesOfNonBlank(lines[1..]);
    }
  }

  /**
   * A transaction event's new description is the stripped summary of the first block of its
   * enhanced text that is not a financial statement, or the old description when every block is one.
   */
  lemma ChosenDescIsFirstSummary<V>(e: Event<V>)
    ensures var blocks := Blocks(TextLines(EnhancedDesc(e)));
      && ((forall k | 0 <= k < |blocks| :: !NotFinancialStatement(blocks[k])) ==> ChosenDesc(e) == Desc(e))
      && forall j: nat | FirstKept(blocks, NotFinancialStatement, j) :: ChosenDesc(e) == Strip(Summarize(blocks[j]))
  {
    var blocks := Blocks(TextLines(EnhancedDesc(e)));
    var ss := KeptSummaries(blocks);
    assert SummaryText(EnhancedDesc(e)) == Join(ss, "\n");
    KeptSummariesOneLine(blocks);
    FirstNonBlankLine(ss);
    KeptSummariesFirst(blocks);
    forall j: nat | FirstKept(blocks, NotFinancialStatement, j) ensures ChosenDesc(e) == Strip(Summarize(blocks[j])) {
      var j0: nat :| FirstKept(blocks, NotFinancialStatement, j0) && ss[0] == Summarize(blocks[j0]);
      FirstKeptUnique(blocks, NotFinancialStatement, j, j0);
    }
  }

  /**
   * Text before the first anchor line is not dropped: it forms the first block (see
   * Segmenter.GroupsStartWithFirstLine), and unless that block is a financial statement its
   * summary becomes the new description.
   */
  lemma PreambleSummaryChosen<V>(e: Event<V>)
    requires var blocks := Blocks(TextLines(EnhancedDesc(e))); blocks != [] && NotFinancialStatement(blocks[0])
    ensures ChosenDesc(e) == Strip(Summarize(Blocks(TextLines(EnhancedDesc(e)))[0]))
  {
    var blocks := Blocks(TextLines(EnhancedDesc(e)));
    assert FirstKept(blocks, NotFinancialStatement, 0);
    ChosenDescIsFirstSummary(e);
  }

  /** The first non-blank line of summaries joined by newlines is the first summary, stripped. */
  lemma FirstNonBlankLine(ss: seq<string>)
    requires forall k | 0 <= k < |ss| :: '\n' !in ss[k] && !AllWs(ss[k])
    ensures var ls := NonBlankLines(Split(Join(ss, "\n"), '\n'));
      && (ss == [] ==> ls == [])
      && (ss != [] ==> ls != [] && ls[0] == Strip(ss[0]))
  {
    if ss == [] {
      assert Split("", '\n') == [""];
      StripSpec("");
    } else {
      SplitJoin(ss, '\n');
      NonBlankLinesOfNonBlank(ss);
    }
  }

  /**
   * The recovered execution date is Python's `re.search` for `on DDDD-DD-DD`: the date of the
   * leftmost match in the new description, or the old execution date when there is none.
   */
  lemma RecoveredExerIsLeftmostDate<V>(e: Event<V>)
    requires IsTransaction(e)
    ensures var summary, d := ProcessEvent(e).desc.value, ProcessEvent(e).exer.value;
      && (forall p: nat, g: Span | LeftmostMatch(OnDatePattern, summary, p, g) ::
            g.lo <= g.hi <= |summary| && d == summary[g.lo..g.hi] && IsDateShape(d))
      && ((forall p: nat, g: Span :: !Decomposes(OnDatePattern, summary, p, g)) ==> d == e.exer.GetOr(""))
  {
    var summary := ChosenDesc(e);
    SearchIsLeftmostMatch(OnDatePattern, summary);
    DateGroupShape("on ", summary, false);
    match Search(OnDatePattern, summary, 0)
    case Some((p0, g0)) =>
      forall p: nat, g: Span | LeftmostMatch(OnDatePattern, summary, p, g)
        ensures g.lo <= g.hi <= |summary| && RecoveredExer(e, summary) == summary[g.lo..g.hi]
      {
        assert p == p0;
        DecompositionUnique(OnDatePattern, summary, p, g, g0);
      }
    case None =>
  }
}
