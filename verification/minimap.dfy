/** The minimap above the span tree: one 5px bar per span in the same
    preorder as the tree, the cursor and duration guides that follow the
    mouse, the time-axis ticks, and the fog outside the view window. */
module Minimap {
  import opened Wrappers
  import opened SpanTree

  /** `MINIMAP_CONTAINER_HEIGHT`, also used by the rows' pan arithmetic. */
  const MinimapContainerHeight: real := 106.0

  /** Height of one minimap bar (`MinimapSpanBar`); the rows' pan arithmetic
      assumes the same 5px. */
  const MinimapSpanBarHeight: real := 5.0

  // ---------------------------------------------------------------------
  // The bars

  /** A minimap bar: the span id it was drawn for and its colour. */
  datatype Bar = Bar(spanId: string, colour: string)

  /** `renderSpan` of the minimap: pick a colour, draw this span's bar, then
      the bars of the lookup's children in order. `picks` counts earlier
      picks; `None` when the lookup nests deeper than `fuel`. */
  function MinimapBars(lookup: Lookup, spanId: string, palette: nat -> string, picks: nat, fuel: nat)
    : (r: Option<(seq<Bar>, nat)>)
    ensures r.Some? ==> |r.value.0| >= 1 && r.value.0[0] == Bar(spanId, palette(picks))
    ensures r.Some? ==> r.value.1 == picks + |r.value.0|
    decreases fuel, 0
  {
    if fuel == 0 then None
    else
      var spanBarColour := palette(picks);
      match MinimapChildBars(lookup, ChildrenOf(lookup, spanId), palette, picks + 1, fuel - 1)
      case None => None
      case Some((bars, picks')) => Some(([Bar(spanId, spanBarColour)] + bars, picks'))
  }

  /** The `reduce` over the children of the minimap's `renderSpan`. */
  function MinimapChildBars(lookup: Lookup, children: seq<Span>, palette: nat -> string, picks: nat, fuel: nat)
    : (r: Option<(seq<Bar>, nat)>)
    ensures r.Some? ==> r.value.1 == picks + |r.value.0|
    decreases fuel, |children| + 1
  {
    if |children| == 0 then Some(([], picks))
    else
      match MinimapBars(lookup, children[0].spanId, palette, picks, fuel)
      case None => None
      case Some((first, picks')) =>
        match MinimapChildBars(lookup, children[1..], palette, picks', fuel)
        case None => None
        case Some((rest, picks'')) => Some((first + rest, picks''))
  }

  /** `renderRootSpan` of the minimap: a fresh picker from the root span id. */
  function DrawMinimap(trace: Trace, palette: nat -> string, fuel: nat): (r: Option<seq<Bar>>)
    ensures r.Some? ==> |r.value| >= 1 && r.value[0] == Bar(trace.rootSpanId, palette(0))
  {
    match MinimapBars(trace.lookup, trace.rootSpanId, palette, 0, fuel)
    case None => None
    case Some((bars, _)) => Some(bars)
  }

  /** `bars` are the bars of the listing `vs`, coloured from the `picks`-th
      pick on. */
  predicate BarsFollow(bars: seq<Bar>, vs: seq<Visit>, palette: nat -> string, picks: nat) {
    && |bars| == |vs|
    && forall i :: 0 <= i < |vs| ==> bars[i] == Bar(vs[i].span.spanId, palette(picks + i))
  }

  lemma BarsFollowAppend(a: seq<Bar>, va: seq<Visit>, b: seq<Bar>, vb: seq<Visit>, palette: nat -> string, picks: nat)
    requires BarsFollow(a, va, palette, picks) && BarsFollow(b, vb, palette, picks + |va|)
    ensures BarsFollow(a + b, va + vb, palette, picks)
  {
    var bars, vs := a + b, va + vb;
    forall i | |va| <= i < |vs|
      ensures bars[i] == Bar(vs[i].span.spanId, palette(picks + i))
    {
      assert bars[i] == b[i - |va|] && vs[i] == vb[i - |va|];
    }
  }

  /** One step of the minimap's `renderSpan`. */
  lemma MinimapBarsUnfold(lookup: Lookup, spanId: string, palette: nat -> string, picks: nat, fuel: nat)
    requires fuel > 0
    requires MinimapChildBars(lookup, ChildrenOf(lookup, spanId), palette, picks + 1, fuel - 1).Some?
    ensures var child := MinimapChildBars(lookup, ChildrenOf(lookup, spanId), palette, picks + 1, fuel - 1).value;
      MinimapBars(lookup, spanId, palette, picks, fuel) == Some(([Bar(spanId, palette(picks))] + child.0, child.1))
  {
  }

  /** One step of the minimap's `reduce` over the children. */
  lemma MinimapChildBarsUnfold(lookup: Lookup, children: seq<Span>, palette: nat -> string, picks: nat, fuel: nat)
    requires |children| > 0
    requires MinimapBars(lookup, children[0].spanId, palette, picks, fuel).Some?
    requires MinimapChildBars(lookup, children[1..], palette,
                              MinimapBars(lookup, children[0].spanId, palette, picks, fuel).value.1, fuel).Some?
    ensures var first := MinimapBars(lookup, children[0].spanId, palette, picks, fuel).value;
            var rest := MinimapChildBars(lookup, children[1..], palette, first.1, fuel).value;
      MinimapChildBars(lookup, children, palette, picks, fuel) == Some((first.0 + rest.0, rest.1))
  {
  }

  /** The minimap walks the same tree as the span tree, in the same preorder,
      picking colours in the same order: its i-th bar is the i-th span of
      the tree's preorder listing, with the i-th colour after `picks`. */
  lemma {:induction false} MinimapBarsArePreorder(lookup: Lookup, span: Span, palette: nat -> string,
                                                  picks: nat, fuel: nat, depth: nat)
    requires FromLookup(lookup, span, fuel).Some?
    ensures var r := MinimapBars(lookup, span.spanId, palette, picks, fuel);
      r.Some? && BarsFollow(r.value.0, Visits(FromLookup(lookup, span, fuel).value, depth), palette, picks)
    decreases fuel, 0
  {
    var t := FromLookup(lookup, span, fuel).value;
    var kids := ChildrenOf(lookup, span.spanId);
    FromLookupUnfold(lookup, span, fuel);
    MinimapChildBarsArePreorder(lookup, kids, palette, picks + 1, fuel - 1, depth);
    MinimapBarsUnfold(lookup, span.spanId, palette, picks, fuel);
    var childBars := MinimapChildBars(lookup, kids, palette, picks + 1, fuel - 1).value.0;
    var head := [Visit(t.span, depth, |t.children|)];
    var rest := ForestVisits(t.children, depth);
    assert BarsFollow([Bar(span.spanId, palette(picks))], head, palette, picks);
    assert BarsFollow(childBars, rest, palette, picks + |head|);
    BarsFollowAppend([Bar(span.spanId, palette(picks))], head, childBars, rest, palette, picks);
    assert Visits(t, depth) == head + rest;
  }

  lemma {:induction false} MinimapChildBarsArePreorder(lookup: Lookup, children: seq<Span>, palette: nat -> string,
                                                       picks: nat, fuel: nat, depth: nat)
    requires FromLookupForest(lookup, children, fuel).Some?
    ensures var r := MinimapChildBars(lookup, children, palette, picks, fuel);
      r.Some? && BarsFollow(r.value.0, ForestVisits(FromLookupForest(lookup, children, fuel).value, depth), palette, picks)
    decreases fuel, |children| + 1
  {
    if |children| > 0 {
      FromLookupForestUnfold(lookup, children, fuel);
      var ts := FromLookupForest(lookup, children, fuel).value;
      var t := FromLookup(lookup, children[0], fuel).value;
      var tsRest := FromLookupForest(lookup, children[1..], fuel).value;
      assert ts[0] == t && ts[1..] == tsRest;
      MinimapBarsArePreorder(lookup, children[0], palette, picks, fuel, depth + 1);
      var first := MinimapBars(lookup, children[0].spanId, palette, picks, fuel).value;
      MinimapChildBarsArePreorder(lookup, children[1..], palette, first.1, fuel, depth);
      MinimapChildBarsUnfold(lookup, children, palette, picks, fuel);
      var a, b := Visits(t, depth + 1), ForestVisits(tsRest, depth);
      assert ForestVisits(ts, depth) == a + b;
      var restBars := MinimapChildBars(lookup, children[1..], palette, first.1, fuel).value.0;
      assert BarsFollow(first.0, a, palette, picks);
      assert first.1 == picks + |a|;
      assert BarsFollow(restBars, b, palette, picks + |a|);
      BarsFollowAppend(first.0, a, restBars, b, palette, picks);
      var bars := MinimapChildBars(lookup, children, palette, picks, fuel).value.0;
      assert bars == first.0 + restBars;
      assert BarsFollow(bars, ForestVisits(ts, depth), palette, picks);
    } else {
      assert FromLookupForest(lookup, children, fuel).value == [];
    }
  }

  /** Top edge of the bar at index `i` (the bars are stacked 5px apart). */
  function BarTop(i: nat): (y: real)
    ensures y >= 0.0
  {
    (i as real) * MinimapSpanBarHeight
  }

  // ---------------------------------------------------------------------
  // JavaScript arithmetic at the guides

  /** The outcomes of a JavaScript division that the guides can see. */
  datatype JsNumber = Finite(r: real) | PosInfinity | NegInfinity | NaN

  /** `a / b`, with division by zero giving an infinity or NaN. */
  function Divide(a: real, b: real): (q: JsNumber)
    ensures b != 0.0 ==> q == Finite(a / b)
    ensures b == 0.0 && a > 0.0 ==> q == PosInfinity
    ensures b == 0.0 && a < 0.0 ==> q == NegInfinity
    ensures q.NaN? <==> a == 0.0 && b == 0.0
  {
    if b != 0.0 then Finite(a / b)
    else if a > 0.0 then PosInfinity
    else if a < 0.0 then NegInfinity
    else NaN
  }

  /** Multiplication by a positive constant. */
  function Scale(x: JsNumber, k: real): (y: JsNumber)
    requires k > 0.0
    ensures x.Finite? ==> y == Finite(x.r * k)
    ensures !x.Finite? ==> y == x
  {
    if x.Finite? then Finite(x.r * k) else x
  }

  /** `clamp(x, lo, hi)`: the nearest point of [lo, hi]; NaN stays NaN. */
  function Clamp(x: JsNumber, lo: real, hi: real): (y: JsNumber)
    requires lo <= hi
    ensures y.NaN? <==> x.NaN?
    ensures !x.NaN? ==> y.Finite?
    ensures y.Finite? ==> lo <= y.r <= hi
    ensures x.Finite? && lo <= x.r <= hi ==> y == x
    ensures x.Finite? && x.r < lo ==> y == Finite(lo)
    ensures x.Finite? && x.r > hi ==> y == Finite(hi)
    ensures x.PosInfinity? ==> y == Finite(hi)
    ensures x.NegInfinity? ==> y == Finite(lo)
  {
    match x
    case Finite(r) => Finite(if r < lo then lo else if r > hi then hi else r)
    case PosInfinity => Finite(hi)
    case NegInfinity => Finite(lo)
    case NaN => NaN
  }

  // ---------------------------------------------------------------------
  // Mouse state and guides

  /** The interactive layer's content box: its left edge and width. */
  datatype Rect = Rect(x: real, width: real)

  datatype MinimapState = MinimapState(showCursorGuide: bool, mousePageX: Option<real>, startViewHandleX: real)

  const InitialMinimapState: MinimapState := MinimapState(false, None, 100.0)

  /** `onMouseEnter` and `onMouseMove` set the same state. */
  function OnMouseEnterOrMove(s: MinimapState, pageX: real): (r: MinimapState)
    ensures r.showCursorGuide && r.mousePageX == Some(pageX) && r.startViewHandleX == s.startViewHandleX
  {
    s.(showCursorGuide := true, mousePageX := Some(pageX))
  }

  function OnMouseLeave(s: MinimapState): (r: MinimapState)
    ensures !r.showCursorGuide && r.mousePageX.None? && r.startViewHandleX == s.startViewHandleX
  {
    s.(showCursorGuide := false, mousePageX := None)
  }

  /** `showCursorGuide && mousePageX` with JavaScript truthiness: an unset
      position and a position of 0 both count as absent. */
  predicate GuidesShown(s: MinimapState) {
    s.showCursorGuide && s.mousePageX.Some? && s.mousePageX.value != 0.0
  }

  /** After the mouse leaves no guide is drawn; after it enters or moves the
      guides are drawn unless its page x is 0. */
  lemma GuidesFollowTheMouse(s: MinimapState, pageX: real)
    ensures !GuidesShown(InitialMinimapState)
    ensures !GuidesShown(OnMouseLeave(s))
    ensures GuidesShown(OnMouseEnterOrMove(s, pageX)) <==> pageX != 0.0
  {
  }

  /** The cursor guide's x, in percent of the minimap width, clamped to
      [0, 100]; the same value serves the minimap guide and the time-axis
      guide. `None` when no guide is drawn (guides off, or no layer). */
  function CursorGuideX(s: MinimapState, layer: Option<Rect>): (r: Option<JsNumber>)
    ensures r.Some? <==> GuidesShown(s) && layer.Some?
    ensures r.Some? && r.value.Finite? ==> 0.0 <= r.value.r <= 100.0
    ensures r.Some? ==> (r.value.NaN? <==> layer.value.width == 0.0 && s.mousePageX.value == layer.value.x)
    ensures r.Some? ==> !r.value.PosInfinity? && !r.value.NegInfinity?
    ensures r.Some? && layer.value.width != 0.0 ==>
      var p := (s.mousePageX.value - layer.value.x) / layer.value.width * 100.0;
      && r.value.Finite?
      && (p < 0.0 ==> r.value.r == 0.0)
      && (p > 100.0 ==> r.value.r == 100.0)
      && (0.0 <= p <= 100.0 ==> r.value.r == p)
    ensures r.Some? && layer.value.width == 0.0 && s.mousePageX.value > layer.value.x ==> r.value == Finite(100.0)
    ensures r.Some? && layer.value.width == 0.0 && s.mousePageX.value < layer.value.x ==> r.value == Finite(0.0)
  {
    if !GuidesShown(s) || layer.None? then None
    else
      var rect := layer.value;
      Some(Clamp(Scale(Divide(s.mousePageX.value - rect.x, rect.width), 100.0), 0.0, 100.0))
  }

  /** The duration label under the cursor. */
  datatype DurationGuide = DurationGuide(mouseLeft: JsNumber, duration: JsNumber, alignLeft: bool)

  function AbsReal(x: real): real {
    if x < 0.0 then -x else x
  }

  /** The part `f` of a non-negative duration `d`: it lies between 0 and `d`. */
  function Portion(f: real, d: real): (p: real)
    requires 0.0 <= f <= 1.0 && 0.0 <= d
    ensures p == f * d
    ensures 0.0 <= p <= d
  {
    assert d - f * d == (1.0 - f) * d;
    f * d
  }

  /** `renderDurationGuide`: the cursor's fraction of the width clamped to
      [0, 1], times the trace's duration; the label flips to the left when
      less than 100px remain to its right. */
  function RenderDurationGuide(s: MinimapState, layer: Option<Rect>,
                               traceStartTimestamp: real, traceEndTimestamp: real): (r: Option<DurationGuide>)
    ensures r.Some? <==> GuidesShown(s) && layer.Some?
    ensures r.Some? && r.value.mouseLeft.Finite? ==>
      && 0.0 <= r.value.mouseLeft.r <= 1.0
      && r.value.duration.Finite?
      && 0.0 <= r.value.duration.r <= AbsReal(traceEndTimestamp - traceStartTimestamp)
    ensures r.Some? ==> (r.value.mouseLeft.NaN? <==> r.value.duration.NaN?)
    ensures r.Some? ==> r.value.mouseLeft == Clamp(Divide(s.mousePageX.value - layer.value.x, layer.value.width), 0.0, 1.0)
    ensures r.Some? && r.value.mouseLeft.Finite? ==>
      r.value.duration == Finite(r.value.mouseLeft.r * AbsReal(traceEndTimestamp - traceStartTimestamp))
    ensures r.Some? && r.value.mouseLeft.Finite? ==>
      (r.value.alignLeft <==> (1.0 - r.value.mouseLeft.r) * layer.value.width <= 100.0)
    ensures r.Some? && r.value.mouseLeft.NaN? ==> !r.value.alignLeft
  {
    if !GuidesShown(s) || layer.None? then None
    else
      var rect := layer.value;
      var mouseLeft := Clamp(Divide(s.mousePageX.value - rect.x, rect.width), 0.0, 1.0);
      var traceDuration := AbsReal(traceEndTimestamp - traceStartTimestamp);
      if mouseLeft.Finite? then
        var f := mouseLeft.r;
        Some(DurationGuide(mouseLeft, Finite(Portion(f, traceDuration)), (1.0 - f) * rect.width <= 100.0))
      else
        // NaN times anything is NaN, and a comparison with NaN is false.
        Some(DurationGuide(mouseLeft, NaN, false))
  }

  // ---------------------------------------------------------------------
  // Time axis and fog

  /** The five tick labels: 0, a quarter, half, three quarters and all of
      the trace's duration. */
  function TimeAxisTicks(traceStartTimestamp: real, traceEndTimestamp: real): (ticks: seq<real>)
    ensures |ticks| == 5
    ensures ticks[0] == 0.0 && ticks[4] == AbsReal(traceEndTimestamp - traceStartTimestamp)
    ensures forall i, j :: 0 <= i < j < 5 ==> ticks[i] <= ticks[j]
    ensures forall i :: 0 <= i < 4 ==> ticks[i + 1] - ticks[i] == ticks[4] / 4.0
  {
    var duration := AbsReal(traceEndTimestamp - traceStartTimestamp);
    [0.0, duration * 0.25, duration * 0.5, duration * 0.75, duration]
  }

  /** A fog rectangle across the full height: its left edge and width, as
      fractions of the minimap width. */
  datatype Fog = Fog(x: real, width: real)

  /** `renderFog`: fog left of the view window and right of it. */
  function RenderFog(viewWindowStart: real, viewWindowEnd: real): (fogs: seq<Fog>)
    ensures |fogs| == 2
    ensures fogs[0].x == 0.0 && fogs[0].x + fogs[0].width == viewWindowStart
    ensures fogs[1].x == viewWindowEnd && fogs[1].x + fogs[1].width == 1.0
  {
    [Fog(0.0, viewWindowStart), Fog(viewWindowEnd, 1.0 - viewWindowEnd)]
  }

  predicate Fogged(fogs: seq<Fog>, p: real) {
    exists i :: 0 <= i < |fogs| && fogs[i].x <= p <= fogs[i].x + fogs[i].width
  }

  /** With the view window inside [0, 1], a point outside the window is
      under the fog, a point strictly inside it is clear, and the fog covers
      exactly the width the window leaves over. */
  lemma FogLeavesOnlyTheViewWindow(viewWindowStart: real, viewWindowEnd: real, p: real)
    requires 0.0 <= viewWindowStart <= viewWindowEnd <= 1.0
    requires 0.0 <= p <= 1.0
    ensures var fogs := RenderFog(viewWindowStart, viewWindowEnd);
      && (p < viewWindowStart || p > viewWindowEnd ==> Fogged(fogs, p))
      && (viewWindowStart < p < viewWindowEnd ==> !Fogged(fogs, p))
      && fogs[0].width + fogs[1].width == 1.0 - (viewWindowEnd - viewWindowStart)
  {
    var fogs := RenderFog(viewWindowStart, viewWindowEnd);
    if p < viewWindowStart {
      assert fogs[0].x <= p <= fogs[0].x + fogs[0].width;
    } else if p > viewWindowEnd {
      assert fogs[1].x <= p <= fogs[1].x + fogs[1].width;
    }
  }
}
