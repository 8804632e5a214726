/** The span tree and the minimap side by side. The minimap draws its bars
    with the same preorder walk as the span tree, and the rows pan the
    minimap by 5px per span number; together these put the pan for span
    number n on the minimap bar drawn for that very span. */
module TraceView {
  import opened Wrappers
  import opened SpanTree
  import opened Minimap
  import opened SpanComponent

  /** Bar i of the minimap and row i of the span tree are drawn for the same
      span, with the same colour, and that row carries span number i + 1. */
  lemma MinimapBarsMatchSpanRows(trace: Trace, bounds: Span -> Bounds, palette: nat -> string, fuel: nat)
    requires FromLookup(trace.lookup, RootSpan(trace), fuel).Some?
    ensures RenderTrace(trace, bounds, palette, fuel).Some?
    ensures DrawMinimap(trace, palette, fuel).Some?
    ensures var rows := SpanRows(RenderTrace(trace, bounds, palette, fuel).value);
            var bars := DrawMinimap(trace, palette, fuel).value;
      && |bars| == |rows|
      && forall i :: 0 <= i < |rows| ==>
           && rows[i].spanNumber == i + 1
           && bars[i].spanId == rows[i].span.spanId
           && bars[i].colour == rows[i].colour
  {
    var root := FromLookup(trace.lookup, RootSpan(trace), fuel).value;
    RenderTraceRows(trace, bounds, palette, fuel);
    MinimapBarsArePreorder(trace.lookup, RootSpan(trace), palette, 0, fuel, 0);
  }

  /** When a row with span number n sends a pan, the pan lies within the
      minimap bar at index n - 1, and that bar was drawn for the row's own
      span. */
  lemma PanLandsOnTheRowsOwnBar(trace: Trace, bounds: Span -> Bounds, palette: nat -> string, fuel: nat,
                                i: nat, entry: IntersectionEntry)
    requires FromLookup(trace.lookup, RootSpan(trace), fuel).Some?
    requires i < |SpanRows(RenderTrace(trace, bounds, palette, fuel).value)|
    requires entry.spanNumber == Some(SpanRows(RenderTrace(trace, bounds, palette, fuel).value)[i].spanNumber as real)
    requires 0.0 <= entry.intersectionRatio <= 1.0
    requires PanOffset(entry).Some?
    ensures DrawMinimap(trace, palette, fuel).Some?
    ensures var row := SpanRows(RenderTrace(trace, bounds, palette, fuel).value)[i];
            var bars := DrawMinimap(trace, palette, fuel).value;
      && 1 <= row.spanNumber <= |bars|
      && bars[row.spanNumber - 1].spanId == row.span.spanId
      && BarTop(row.spanNumber - 1) <= PanOffset(entry).value <= BarTop(row.spanNumber - 1) + MinimapSpanBarHeight
  {
    MinimapBarsMatchSpanRows(trace, bounds, palette, fuel);
    PanWithinSpanBar(entry);
    var row := SpanRows(RenderTrace(trace, bounds, palette, fuel).value)[i];
    assert row.spanNumber == i + 1;
    assert BarTop(i) == (row.spanNumber as real - 1.0) * MinimapSpanBarHeight;
  }

  /** A row shows the children toggler exactly when its span has a
      non-empty entry in the lookup. */
  lemma TogglerIffLookupHasChildren(trace: Trace, bounds: Span -> Bounds, palette: nat -> string, fuel: nat, i: nat)
    requires FromLookup(trace.lookup, RootSpan(trace), fuel).Some?
    requires i < |SpanRows(RenderTrace(trace, bounds, palette, fuel).value)|
    ensures var row := SpanRows(RenderTrace(trace, bounds, palette, fuel).value)[i];
      ShowsToggler(row.numOfSpanChildren) <==> row.span.spanId in trace.lookup && trace.lookup[row.span.spanId] != []
  {
    RenderTraceRows(trace, bounds, palette, fuel);
  }
}
