/** One row of the transaction view: how a span's timestamps are classified,
    whether and where its bar is drawn, the warning it carries, the indent of
    its title, the two toggles, and the vertical pan the minimap receives
    when the row crosses the minimap's lower edge. */
module SpanComponent {
  import opened Wrappers
  import opened SpanTree
  import opened Minimap

  datatype TimestampStatus = Stable | Reversed | Equal

  /** `parseSpanTimestamps` */
  function ParseSpanTimestamps(span: Span): (r: TimestampStatus)
    ensures r == Stable <==> span.startTimestamp < span.timestamp
    ensures r == Equal <==> span.startTimestamp == span.timestamp
    ensures r == Reversed <==> span.startTimestamp > span.timestamp
  {
    if span.startTimestamp < span.timestamp then Stable
    else if span.startTimestamp == span.timestamp then Equal
    else Reversed
  }

  function Abs(x: real): real {
    if x < 0.0 then -x else x
  }

  /** The displayed duration, `Math.abs(end - start)`. */
  function Duration(span: Span): (d: real)
    ensures d >= 0.0
    ensures d == 0.0 <==> ParseSpanTimestamps(span) == Equal
    ensures d == Abs(span.startTimestamp - span.timestamp)
  {
    Abs(span.timestamp - span.startTimestamp)
  }

  /** Swapping a span's start and end swaps Stable and Reversed and keeps
      Equal. */
  lemma SwappedTimestamps(span: Span)
    ensures var swapped := span.(startTimestamp := span.timestamp, timestamp := span.startTimestamp);
      && (ParseSpanTimestamps(span) == Stable <==> ParseSpanTimestamps(swapped) == Reversed)
      && (ParseSpanTimestamps(span) == Equal <==> ParseSpanTimestamps(swapped) == Equal)
      && Duration(swapped) == Duration(span)
  {
  }

  const EqualWarning: string := "The start and end timestamps are equal"
  const ReversedWarning: string := "The start and end timestamps are reversed"

  /** The tooltip shown next to the title; none for a well-formed span. */
  function WarningText(status: TimestampStatus): (r: Option<string>)
    ensures r.None? <==> status == Stable
    ensures status == Equal ==> r == Some(EqualWarning)
    ensures status == Reversed ==> r == Some(ReversedWarning)
  {
    match status
    case Equal => Some(EqualWarning)
    case Reversed => Some(ReversedWarning)
    case Stable => None
  }

  lemma WarningsDiffer()
    ensures WarningText(Equal) != WarningText(Reversed)
  {
    assert |EqualWarning| != |ReversedWarning|;
  }

  /** Whether the row is displayed: a Stable span only when it overlaps the
      view window, any other span always. */
  function IsVisible(status: TimestampStatus, bounds: Bounds): (r: bool)
    ensures status != Stable ==> r
  {
    if status == Stable then bounds.end > 0.0 && bounds.start < 1.0 else true
  }

  /** For a Stable span the row's visibility is exactly the negation of the
      span tree's hidden test. */
  lemma StableVisibilityAgreesWithSpanTree(span: Span, bounds: Bounds)
    requires ParseSpanTimestamps(span) == Stable
    ensures IsVisible(ParseSpanTimestamps(span), bounds) <==> !IsHidden(bounds)
  {
  }

  /** For a Reversed or Equal span the two tests can disagree: the span tree
      counts such a span as hidden while the row still displays it. */
  lemma NonStableVisibilityMayDisagree()
    ensures var span := Span("s", 2.0, 1.0, "db");
            var bounds := Bounds(1.5, 0.5);
      && ParseSpanTimestamps(span) == Reversed
      && IsHidden(bounds)
      && IsVisible(ParseSpanTimestamps(span), bounds)
  {
  }

  /** Left edge and width of the bar, as fractions of the timeline. */
  datatype BarGeometry = BarGeometry(left: real, width: real)

  /** A Stable span's bar covers exactly its bounds; any other span's bar
      fills the whole timeline. */
  function SpanBarGeometry(status: TimestampStatus, bounds: Bounds): (g: BarGeometry)
    ensures status == Stable ==> g.left == bounds.start && g.left + g.width == bounds.end
    ensures status != Stable ==> g.left == 0.0 && g.left + g.width == 1.0
  {
    if status == Stable then BarGeometry(bounds.start, bounds.end - bounds.start)
    else BarGeometry(0.0, 1.0)
  }

  /** The bar shares a stretch of positive length with the timeline [0, 1]. */
  predicate OverlapsTimeline(g: BarGeometry) {
    g.left < 1.0 && g.left + g.width > 0.0
  }

  /** A Stable span's row is displayed exactly when its bar overlaps the
      timeline; a Stable span that is not displayed has its bar entirely to
      the left of 0 or to the right of 1. Other spans are displayed and their
      bar fills the timeline. */
  lemma BarVisibleIffOnTimeline(status: TimestampStatus, bounds: Bounds)
    ensures status == Stable ==> (IsVisible(status, bounds) <==> OverlapsTimeline(SpanBarGeometry(status, bounds)))
    ensures !IsVisible(status, bounds) ==>
      var g := SpanBarGeometry(status, bounds);
      g.left + g.width <= 0.0 || g.left >= 1.0
    ensures status != Stable ==> IsVisible(status, bounds) && OverlapsTimeline(SpanBarGeometry(status, bounds))
  {
  }

  const MarginLeft: nat := 8
  const ToggleButtonMarginRight: nat := 8
  const ToggleButtonMaxWidth: nat := 40

  /** The title's (and the toggler's) left offset in pixels: one toggle
      button and its margin per level, plus the left margin. */
  function TitleIndent(treeDepth: nat): (left: nat)
    ensures left >= MarginLeft
    ensures treeDepth == 0 ==> left == MarginLeft
    ensures treeDepth > 0 ==> left == TitleIndent(treeDepth - 1) + ToggleButtonMaxWidth + ToggleButtonMarginRight
  {
    treeDepth * (ToggleButtonMaxWidth + ToggleButtonMarginRight) + MarginLeft
  }

  /** Deeper rows are indented strictly further. */
  lemma {:induction false} TitleIndentIncreasing(d1: nat, d2: nat)
    requires d1 < d2
    ensures TitleIndent(d1) < TitleIndent(d2)
    decreases d2
  {
    if d1 < d2 - 1 {
      TitleIndentIncreasing(d1, d2 - 1);
    }
  }

  // ---------------------------------------------------------------------
  // Per-row state

  datatype RowState = RowState(displayDetail: bool, showSpanTree: bool)

  /** The initial state: details closed, children shown. */
  const InitialRowState: RowState := RowState(false, true)

  /** `toggleSpanTree` */
  function ToggleSpanTree(s: RowState): (r: RowState)
    ensures r.showSpanTree == !s.showSpanTree && r.displayDetail == s.displayDetail
  {
    s.(showSpanTree := !s.showSpanTree)
  }

  /** `toggleDisplayDetail` */
  function ToggleDisplayDetail(s: RowState): (r: RowState)
    ensures r.displayDetail == !s.displayDetail && r.showSpanTree == s.showSpanTree
  {
    s.(displayDetail := !s.displayDetail)
  }

  /** Toggling twice restores the state, and the two toggles commute. */
  lemma TogglesAreInvolutions(s: RowState)
    ensures ToggleSpanTree(ToggleSpanTree(s)) == s
    ensures ToggleDisplayDetail(ToggleDisplayDetail(s)) == s
    ensures ToggleSpanTree(ToggleDisplayDetail(s)) == ToggleDisplayDetail(ToggleSpanTree(s))
  {
  }

  /** `renderSpanChildren`: the already-rendered children, or nothing when
      the subtree is collapsed. */
  function RenderSpanChildren(s: RowState, children: seq<Item>): (r: seq<Item>)
    ensures s.showSpanTree ==> r == children
    ensures !s.showSpanTree ==> r == []
  {
    if !s.showSpanTree then [] else children
  }

  /** `renderDetail` shows the detail panel only when opened and visible. */
  predicate ShowsDetail(s: RowState, isVisible: bool) {
    s.displayDetail && isVisible
  }

  /** `renderSpanTreeToggler` draws the toggler only for a span with children. */
  predicate ShowsToggler(numOfSpanChildren: int) {
    numOfSpanChildren > 0
  }

  /** The detail panel follows `displayDetail` and is never drawn for a
      hidden row; collapsing the subtree does not touch it. */
  lemma DetailPanelFollowsToggles(s: RowState, isVisible: bool)
    ensures !isVisible ==> !ShowsDetail(s, isVisible)
    ensures ShowsDetail(ToggleDisplayDetail(s), isVisible) <==> !ShowsDetail(s, isVisible) && isVisible
    ensures ShowsDetail(ToggleSpanTree(s), isVisible) == ShowsDetail(s, isVisible)
  {
  }

  /** A fresh row shows its children and no detail panel. */
  lemma InitialRowRendering(children: seq<Item>, isVisible: bool)
    ensures RenderSpanChildren(InitialRowState, children) == children
    ensures !ShowsDetail(InitialRowState, isVisible)
  {
  }

  // ---------------------------------------------------------------------
  // Panning the minimap

  /** What the intersection observer reports for a row: the span number read
      back from `data-span-number` (`None` when missing or not finite), the
      row's top and height relative to the root, and how much of it is
      visible. */
  datatype IntersectionEntry = IntersectionEntry(
    spanNumber: Option<real>,
    rectY: real,
    rectHeight: real,
    intersectionRatio: real)

  /** The pan sent to the minimap, or `None` when nothing is sent. */
  function PanOffset(entry: IntersectionEntry): (r: Option<real>)
    ensures r.Some? ==> entry.spanNumber.Some?
    ensures r.Some? ==> r.value == (entry.spanNumber.value - 1.0) * MinimapSpanBarHeight
                                   + (1.0 - entry.intersectionRatio) * MinimapSpanBarHeight
  {
    match entry.spanNumber
    case None => None
    case Some(spanNumber) =>
      var bottomYCoord := entry.rectY + entry.rectHeight;
      var isOutOfViewAbove := entry.rectY < 0.0 && bottomYCoord < 0.0;
      if isOutOfViewAbove then None
      else
        var top := entry.rectY - MinimapContainerHeight;
        var bottom := bottomYCoord - MinimapContainerHeight;
        var rectBelowMinimap := top > 0.0 && bottom > 0.0;
        var inAndAboveMinimap := bottom <= 0.0;
        if rectBelowMinimap || inAndAboveMinimap then None
        else
          var numberOfMovedSpans := spanNumber - 1.0;
          var totalHeightOfHiddenSpans := numberOfMovedSpans * MinimapSpanBarHeight;
          var currentSpanHiddenRatio := 1.0 - entry.intersectionRatio;
          Some(totalHeightOfHiddenSpans + currentSpanHiddenRatio * MinimapSpanBarHeight)
  }

  /** A pan is sent exactly when the row straddles the minimap's lower edge
      (its top at or above the edge, its bottom below it); the "out of view
      above" test never decides anything on its own. */
  lemma PanSentIffRowStraddlesMinimapEdge(entry: IntersectionEntry)
    requires entry.spanNumber.Some?
    ensures PanOffset(entry).Some? <==>
      entry.rectY <= MinimapContainerHeight < entry.rectY + entry.rectHeight
  {
  }

  /** For a visible fraction in [0, 1], the pan for span n lies within the
      n-th 5px bar of the minimap: from (n-1)*5 to n*5. */
  lemma PanWithinSpanBar(entry: IntersectionEntry)
    requires PanOffset(entry).Some?
    requires 0.0 <= entry.intersectionRatio <= 1.0
    ensures var n := entry.spanNumber.value;
      (n - 1.0) * MinimapSpanBarHeight <= PanOffset(entry).value <= n * MinimapSpanBarHeight
  {
  }
}
