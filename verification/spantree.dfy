/** The span tree of the transaction view: a recursive walk over the
    parent-to-children lookup that numbers spans in preorder from 1, tracks
    the tree depth, counts runs of consecutive hidden spans, and inserts
    "Number of hidden spans: k" messages in front of the next visible span
    and after the last span. */
module SpanTree {
  import opened Wrappers

  /** A span: its id, start and end timestamps (seconds) and operation name. */
  datatype Span = Span(spanId: string, startTimestamp: real, timestamp: real, op: string)

  /** A span's position relative to the view window, as fractions of the
      window: 0 is its left edge and 1 its right edge. */
  datatype Bounds = Bounds(start: real, end: real)

  /** Children of a span id, in the order the trace lists them. */
  type Lookup = map<string, seq<Span>>

  datatype Trace = Trace(
    traceId: string,
    rootSpanId: string,
    traceStartTimestamp: real,
    traceEndTimestamp: real,
    lookup: Lookup)

  datatype Tree = Node(span: Span, children: seq<Tree>)

  /** `get(lookup, spanID, [])`: a missing key means no children. */
  function ChildrenOf(lookup: Lookup, spanId: string): (r: seq<Span>)
    ensures spanId !in lookup ==> r == []
    ensures spanId in lookup ==> r == lookup[spanId]
  {
    if spanId in lookup then lookup[spanId] else []
  }

  /** A span lies entirely left or entirely right of the view window. */
  predicate IsHidden(b: Bounds) {
    b.end <= 0.0 || b.start >= 1.0
  }

  // ---------------------------------------------------------------------
  // The tree behind the lookup

  /** Every node's children are exactly the lookup's entry for its id. */
  predicate Consistent(lookup: Lookup, t: Tree)
    decreases t
  {
    var kids := ChildrenOf(lookup, t.span.spanId);
    && |t.children| == |kids|
    && forall i :: 0 <= i < |t.children| ==> t.children[i].span == kids[i] && Consistent(lookup, t.children[i])
  }

  /** Unfolds the lookup below `span`. The walk in the view recurses without
      bound on a cyclic lookup; here `fuel` bounds the depth and `None` says
      it ran out. */
  function FromLookup(lookup: Lookup, span: Span, fuel: nat): (r: Option<Tree>)
    ensures r.Some? ==> r.value.span == span && Consistent(lookup, r.value)
    decreases fuel, 0
  {
    if fuel == 0 then None
    else
      match FromLookupForest(lookup, ChildrenOf(lookup, span.spanId), fuel - 1)
      case None => None
      case Some(kids) => Some(Node(span, kids))
  }

  function FromLookupForest(lookup: Lookup, spans: seq<Span>, fuel: nat): (r: Option<seq<Tree>>)
    ensures r.Some? ==> |r.value| == |spans|
    ensures r.Some? ==> forall i :: 0 <= i < |spans| ==> r.value[i].span == spans[i] && Consistent(lookup, r.value[i])
    decreases fuel, |spans| + 1
  {
    if |spans| == 0 then Some([])
    else
      match FromLookup(lookup, spans[0], fuel)
      case None => None
      case Some(t) =>
        match FromLookupForest(lookup, spans[1..], fuel)
        case None => None
        case Some(rest) => Some([t] + rest)
  }

  /** One step of the unfolding at a node. */
  lemma FromLookupUnfold(lookup: Lookup, span: Span, fuel: nat)
    requires FromLookup(lookup, span, fuel).Some?
    ensures fuel > 0 && FromLookupForest(lookup, ChildrenOf(lookup, span.spanId), fuel - 1).Some?
    ensures FromLookup(lookup, span, fuel).value
         == Node(span, FromLookupForest(lookup, ChildrenOf(lookup, span.spanId), fuel - 1).value)
  {
  }

  /** One step of the unfolding along a list of children. */
  lemma FromLookupForestUnfold(lookup: Lookup, spans: seq<Span>, fuel: nat)
    requires |spans| > 0 && FromLookupForest(lookup, spans, fuel).Some?
    ensures FromLookup(lookup, spans[0], fuel).Some? && FromLookupForest(lookup, spans[1..], fuel).Some?
    ensures FromLookupForest(lookup, spans, fuel).value
         == [FromLookup(lookup, spans[0], fuel).value] + FromLookupForest(lookup, spans[1..], fuel).value
  {
  }

  /** More fuel never changes a tree that was already unfolded: the bound
      only decides whether there is a tree, never which one. */
  lemma {:induction false} FromLookupFuelStable(lookup: Lookup, span: Span, fuel: nat)
    requires FromLookup(lookup, span, fuel).Some?
    ensures FromLookup(lookup, span, fuel + 1) == FromLookup(lookup, span, fuel)
    decreases fuel, 0
  {
    FromLookupUnfold(lookup, span, fuel);
    FromLookupForestFuelStable(lookup, ChildrenOf(lookup, span.spanId), fuel - 1);
  }

  lemma {:induction false} FromLookupForestFuelStable(lookup: Lookup, spans: seq<Span>, fuel: nat)
    requires FromLookupForest(lookup, spans, fuel).Some?
    ensures FromLookupForest(lookup, spans, fuel + 1) == FromLookupForest(lookup, spans, fuel)
    decreases fuel, |spans| + 1
  {
    if |spans| > 0 {
      FromLookupForestUnfold(lookup, spans, fuel);
      FromLookupFuelStable(lookup, spans[0], fuel);
      FromLookupForestFuelStable(lookup, spans[1..], fuel);
    }
  }

  /** The same for any larger bound. */
  lemma {:induction false} FromLookupFuelMonotone(lookup: Lookup, span: Span, fuel: nat, more: nat)
    requires FromLookup(lookup, span, fuel).Some? && fuel <= more
    ensures FromLookup(lookup, span, more) == FromLookup(lookup, span, fuel)
    decreases more - fuel
  {
    if fuel < more {
      FromLookupFuelStable(lookup, span, fuel);
      FromLookupFuelMonotone(lookup, span, fuel + 1, more);
    }
  }

  // ---------------------------------------------------------------------
  // The reference: the preorder listing of the tree

  /** What the walk knows about a span when it renders it. */
  datatype Visit = Visit(span: Span, depth: nat, numOfSpanChildren: nat)

  /** The spans of `t` in preorder, the root at depth `depth`. */
  function Visits(t: Tree, depth: nat): (vs: seq<Visit>)
    ensures |vs| >= 1 && vs[0] == Visit(t.span, depth, |t.children|)
    decreases t
  {
    [Visit(t.span, depth, |t.children|)] + ForestVisits(t.children, depth)
  }

  /** The preorder listing of a list of children of a node at `depth`. */
  function ForestVisits(ts: seq<Tree>, depth: nat): seq<Visit>
    decreases ts
  {
    if |ts| == 0 then [] else Visits(ts[0], depth + 1) + ForestVisits(ts[1..], depth)
  }

  /** The running count after one more span: one more if it is hidden,
      back to zero if it is visible. */
  function Step(run: nat, v: Visit, bounds: Span -> Bounds): nat {
    if IsHidden(bounds(v.span)) then run + 1 else 0
  }

  /** The count left after scanning `vs` from an incoming count `run`. */
  function TrailRun(run: nat, vs: seq<Visit>, bounds: Span -> Bounds): nat
    decreases |vs|
  {
    if |vs| == 0 then run else TrailRun(Step(run, vs[0], bounds), vs[1..], bounds)
  }

  datatype Item =
    | HiddenMessage(count: nat)
    | SpanRow(span: Span, spanNumber: nat, treeDepth: nat, numOfSpanChildren: nat, colour: string)

  /** One span's output in the flat scan: a message if the span is visible
      and hidden spans precede it, then its row. */
  function Segment(v: Visit, number: nat, run: nat, colour: string, bounds: Span -> Bounds): seq<Item> {
    (if !IsHidden(bounds(v.span)) && run > 0 then [HiddenMessage(run)] else [])
    + [SpanRow(v.span, number, v.depth, v.numOfSpanChildren, colour)]
  }

  /** The flat left-to-right scan of a preorder listing: span numbers from
      `number`, colours from the `picks`-th pick on. */
  function FlatItems(vs: seq<Visit>, number: nat, run: nat, picks: nat,
                     bounds: Span -> Bounds, palette: nat -> string): seq<Item>
  {
    if |vs| == 0 then []
    else Segment(vs[0], number, run, palette(picks), bounds)
         + FlatItems(vs[1..], number + 1, Step(run, vs[0], bounds), picks + 1, bounds, palette)
  }

  // ---------------------------------------------------------------------
  // The walk itself

  /** What `renderSpan` returns, plus the number of colours picked so far
      (the picker's hidden state). */
  datatype Rendered = Rendered(items: seq<Item>, nextSpanNumber: nat, numOfHiddenSpansAbove: nat, colourPicks: nat)

  /** `renderSpan`: pick a colour, fold over the children with the running
      span number and hidden count, and put a message before the row when
      this span is visible and hidden spans precede it. The children's rows
      follow the span's own row. */
  function RenderSpan(t: Tree, spanNumber: nat, treeDepth: nat, numOfHiddenSpansAbove: nat,
                      bounds: Span -> Bounds, palette: nat -> string, picks: nat): Rendered
    decreases t
  {
    var colour := palette(picks);
    var hidden := IsHidden(bounds(t.span));
    var start := Rendered([], spanNumber + 1, if hidden then numOfHiddenSpansAbove + 1 else 0, picks + 1);
    var reduced := RenderChildren(t.children, treeDepth + 1, bounds, palette, start);
    var message := if !hidden && numOfHiddenSpansAbove > 0 then [HiddenMessage(numOfHiddenSpansAbove)] else [];
    Rendered(message + [SpanRow(t.span, spanNumber, treeDepth, |t.children|, colour)] + reduced.items,
             reduced.nextSpanNumber, reduced.numOfHiddenSpansAbove, reduced.colourPicks)
  }

  /** The `reduce` over the children. */
  function RenderChildren(ts: seq<Tree>, treeDepth: nat, bounds: Span -> Bounds,
                          palette: nat -> string, acc: Rendered): Rendered
    decreases ts
  {
    if |ts| == 0 then acc
    else
      var r := RenderSpan(ts[0], acc.nextSpanNumber, treeDepth, acc.numOfHiddenSpansAbove, bounds, palette, acc.colourPicks);
      RenderChildren(ts[1..], treeDepth, bounds, palette,
                     Rendered(acc.items + r.items, r.nextSpanNumber, r.numOfHiddenSpansAbove, r.colourPicks))
  }

  const RootOp: string := "transaction"

  /** The synthetic root: the trace's root span id, the trace's start and
      end, and the operation `transaction`. */
  function RootSpan(trace: Trace): Span {
    Span(trace.rootSpanId, trace.traceStartTimestamp, trace.traceEndTimestamp, RootOp)
  }

  /** `renderRootSpan`: a fresh colour picker, span number 1, depth 0, no
      hidden spans above. */
  function RenderRootSpan(root: Tree, bounds: Span -> Bounds, palette: nat -> string): Rendered {
    RenderSpan(root, 1, 0, 0, bounds, palette, 0)
  }

  /** `render`: the tree's items followed by a trailing message when hidden
      spans remain at the end. `None` when the lookup is deeper than `fuel`. */
  function RenderTrace(trace: Trace, bounds: Span -> Bounds, palette: nat -> string, fuel: nat): (r: Option<seq<Item>>)
    ensures r.Some? <==> FromLookup(trace.lookup, RootSpan(trace), fuel).Some?
  {
    match FromLookup(trace.lookup, RootSpan(trace), fuel)
    case None => None
    case Some(root) =>
      var rendered := RenderRootSpan(root, bounds, palette);
      var trailing := if rendered.numOfHiddenSpansAbove > 0 then [HiddenMessage(rendered.numOfHiddenSpansAbove)] else [];
      Some(rendered.items + trailing)
  }

  // ---------------------------------------------------------------------
  // The walk is the flat scan of the preorder listing

  lemma {:induction false} TrailRunAppend(run: nat, a: seq<Visit>, b: seq<Visit>, bounds: Span -> Bounds)
    ensures TrailRun(run, a + b, bounds) == TrailRun(TrailRun(run, a, bounds), b, bounds)
    decreases |a|
  {
    if |a| > 0 {
      assert (a + b)[0] == a[0] && (a + b)[1..] == a[1..] + b;
      TrailRunAppend(Step(run, a[0], bounds), a[1..], b, bounds);
    } else {
      assert a + b == b;
    }
  }

  lemma {:induction false} FlatItemsAppend(a: seq<Visit>, b: seq<Visit>, number: nat, run: nat, picks: nat,
                                           bounds: Span -> Bounds, palette: nat -> string)
    ensures FlatItems(a + b, number, run, picks, bounds, palette)
         == FlatItems(a, number, run, picks, bounds, palette)
            + FlatItems(b, number + |a|, TrailRun(run, a, bounds), picks + |a|, bounds, palette)
    decreases |a|
  {
    if |a| > 0 {
      FlatItemsAppendStep(a, b, number, run, picks, bounds, palette);
      FlatItemsAppend(a[1..], b, number + 1, Step(run, a[0], bounds), picks + 1, bounds, palette);
    } else {
      assert a + b == b;
    }
  }

  /** Unfolds both scans of `FlatItemsAppend` by one span. */
  lemma FlatItemsAppendStep(a: seq<Visit>, b: seq<Visit>, number: nat, run: nat, picks: nat,
                            bounds: Span -> Bounds, palette: nat -> string)
    requires |a| > 0
    ensures var seg, next := Segment(a[0], number, run, palette(picks), bounds), Step(run, a[0], bounds);
      && FlatItems(a + b, number, run, picks, bounds, palette)
         == seg + FlatItems(a[1..] + b, number + 1, next, picks + 1, bounds, palette)
      && FlatItems(a, number, run, picks, bounds, palette)
         == seg + FlatItems(a[1..], number + 1, next, picks + 1, bounds, palette)
      && TrailRun(run, a, bounds) == TrailRun(next, a[1..], bounds)
  {
    assert (a + b)[0] == a[0] && (a + b)[1..] == a[1..] + b;
  }

  /** `renderSpan` on a subtree produces exactly the flat scan of the
      subtree's preorder listing: the next span number is the incoming one
      plus the subtree's size, the returned hidden count is the scan's final
      count, and one colour is picked per span. */
  lemma {:induction false} RenderSpanIsFlatScan(t: Tree, spanNumber: nat, treeDepth: nat, run: nat,
                                                bounds: Span -> Bounds, palette: nat -> string, picks: nat)
    ensures var r := RenderSpan(t, spanNumber, treeDepth, run, bounds, palette, picks);
            var vs := Visits(t, treeDepth);
      && r.items == FlatItems(vs, spanNumber, run, picks, bounds, palette)
      && r.nextSpanNumber == spanNumber + |vs|
      && r.numOfHiddenSpansAbove == TrailRun(run, vs, bounds)
      && r.colourPicks == picks + |vs|
    decreases t
  {
    var vs := Visits(t, treeDepth);
    var v := vs[0];
    var start := Rendered([], spanNumber + 1, Step(run, v, bounds), picks + 1);
    RenderChildrenIsFlatScan(t.children, treeDepth + 1, bounds, palette, start);
    assert vs[1..] == ForestVisits(t.children, treeDepth);
    FlatScanCons(vs, spanNumber, run, picks, bounds, palette);
    var rest := FlatItems(vs[1..], spanNumber + 1, Step(run, v, bounds), picks + 1, bounds, palette);
    assert RenderChildren(t.children, treeDepth + 1, bounds, palette, start).items == [] + rest;
    assert [] + rest == rest;
  }

  /** The flat scan after its first span. */
  lemma FlatScanCons(vs: seq<Visit>, number: nat, run: nat, picks: nat,
                     bounds: Span -> Bounds, palette: nat -> string)
    requires |vs| > 0
    ensures FlatItems(vs, number, run, picks, bounds, palette)
         == Segment(vs[0], number, run, palette(picks), bounds)
            + FlatItems(vs[1..], number + 1, Step(run, vs[0], bounds), picks + 1, bounds, palette)
    ensures TrailRun(run, vs, bounds) == TrailRun(Step(run, vs[0], bounds), vs[1..], bounds)
  {
  }

  lemma {:induction false} RenderChildrenIsFlatScan(ts: seq<Tree>, treeDepth: nat, bounds: Span -> Bounds,
                                                    palette: nat -> string, acc: Rendered)
    requires treeDepth >= 1
    ensures RenderChildren(ts, treeDepth, bounds, palette, acc)
         == Advance(acc, ForestVisits(ts, treeDepth - 1), bounds, palette)
    decreases ts
  {
    if |ts| == 0 {
      assert acc.items + [] == acc.items;
    } else {
      var r0 := RenderSpan(ts[0], acc.nextSpanNumber, treeDepth, acc.numOfHiddenSpansAbove, bounds, palette, acc.colourPicks);
      RenderSpanIsFlatScan(ts[0], acc.nextSpanNumber, treeDepth, acc.numOfHiddenSpansAbove, bounds, palette, acc.colourPicks);
      var acc' := Rendered(acc.items + r0.items, r0.nextSpanNumber, r0.numOfHiddenSpansAbove, r0.colourPicks);
      var a, b := Visits(ts[0], treeDepth), ForestVisits(ts[1..], treeDepth - 1);
      assert acc' == Advance(acc, a, bounds, palette);
      RenderChildrenIsFlatScan(ts[1..], treeDepth, bounds, palette, acc');
      AdvanceAppend(acc, a, b, bounds, palette);
      assert ForestVisits(ts, treeDepth - 1) == a + b;
    }
  }

  /** The accumulator of the `reduce` after the flat scan of `vs`: the
      scan's items appended, one span number and one colour pick per span,
      and the scan's final hidden count. */
  function Advance(acc: Rendered, vs: seq<Visit>, bounds: Span -> Bounds, palette: nat -> string): Rendered {
    Rendered(acc.items + FlatItems(vs, acc.nextSpanNumber, acc.numOfHiddenSpansAbove, acc.colourPicks, bounds, palette),
             acc.nextSpanNumber + |vs|, TrailRun(acc.numOfHiddenSpansAbove, vs, bounds), acc.colourPicks + |vs|)
  }

  /** Scanning `a` and then `b` is scanning `a + b`. */
  lemma AdvanceAppend(acc: Rendered, a: seq<Visit>, b: seq<Visit>, bounds: Span -> Bounds, palette: nat -> string)
    ensures Advance(Advance(acc, a, bounds, palette), b, bounds, palette) == Advance(acc, a + b, bounds, palette)
  {
    FlatItemsAppend(a, b, acc.nextSpanNumber, acc.numOfHiddenSpansAbove, acc.colourPicks, bounds, palette);
    TrailRunAppend(acc.numOfHiddenSpansAbove, a, b, bounds);
    var fa := FlatItems(a, acc.nextSpanNumber, acc.numOfHiddenSpansAbove, acc.colourPicks, bounds, palette);
    var fb := FlatItems(b, acc.nextSpanNumber + |a|, TrailRun(acc.numOfHiddenSpansAbove, a, bounds),
                        acc.colourPicks + |a|, bounds, palette);
    assert (acc.items + fa) + fb == acc.items + (fa + fb);
  }

  // ---------------------------------------------------------------------
  // Properties of the flat scan

  /** The span rows of a list of items, messages dropped. */
  function SpanRows(items: seq<Item>): (rows: seq<Item>)
    ensures forall i :: 0 <= i < |rows| ==> rows[i].SpanRow?
  {
    if |items| == 0 then []
    else (if items[0].SpanRow? then [items[0]] else []) + SpanRows(items[1..])
  }

  lemma {:induction false} SpanRowsAppend(a: seq<Item>, b: seq<Item>)
    ensures SpanRows(a + b) == SpanRows(a) + SpanRows(b)
    decreases |a|
  {
    if |a| > 0 {
      var head := if a[0].SpanRow? then [a[0]] else [];
      assert (a + b)[0] == a[0] && (a + b)[1..] == a[1..] + b;
      assert SpanRows(a + b) == head + SpanRows(a[1..] + b);
      SpanRowsAppend(a[1..], b);
      assert SpanRows(a) == head + SpanRows(a[1..]);
    } else {
      assert a + b == b;
    }
  }

  /** A segment holds exactly one span row: the span's own. */
  lemma SegmentRows(v: Visit, number: nat, run: nat, colour: string, bounds: Span -> Bounds)
    ensures SpanRows(Segment(v, number, run, colour, bounds))
         == [SpanRow(v.span, number, v.depth, v.numOfSpanChildren, colour)]
  {
    var row := SpanRow(v.span, number, v.depth, v.numOfSpanChildren, colour);
    if !IsHidden(bounds(v.span)) && run > 0 {
      assert SpanRows([HiddenMessage(run), row]) == SpanRows([row]);
    }
  }

  /** The first span of the listing contributes the first row. */
  lemma FlatRowsCons(vs: seq<Visit>, number: nat, run: nat, picks: nat,
                     bounds: Span -> Bounds, palette: nat -> string)
    requires |vs| > 0
    ensures SpanRows(FlatItems(vs, number, run, picks, bounds, palette))
         == [SpanRow(vs[0].span, number, vs[0].depth, vs[0].numOfSpanChildren, palette(picks))]
            + SpanRows(FlatItems(vs[1..], number + 1, Step(run, vs[0], bounds), picks + 1, bounds, palette))
  {
    var seg := Segment(vs[0], number, run, palette(picks), bounds);
    var rest := FlatItems(vs[1..], number + 1, Step(run, vs[0], bounds), picks + 1, bounds, palette);
    assert FlatItems(vs, number, run, picks, bounds, palette) == seg + rest;
    SpanRowsAppend(seg, rest);
    SegmentRows(vs[0], number, run, palette(picks), bounds);
  }

  /** `rows` are the rows of the listing `vs`, numbered from `number` and
      coloured from the `picks`-th pick on. */
  predicate RowsFollow(rows: seq<Item>, vs: seq<Visit>, number: nat, picks: nat, palette: nat -> string) {
    && |rows| == |vs|
    && forall i :: 0 <= i < |vs| ==>
         rows[i] == SpanRow(vs[i].span, number + i, vs[i].depth, vs[i].numOfSpanChildren, palette(picks + i))
  }

  lemma RowsFollowCons(rows: seq<Item>, vs: seq<Visit>, number: nat, picks: nat, palette: nat -> string)
    requires |vs| > 0 && |rows| > 0
    requires rows[0] == SpanRow(vs[0].span, number, vs[0].depth, vs[0].numOfSpanChildren, palette(picks))
    requires RowsFollow(rows[1..], vs[1..], number + 1, picks + 1, palette)
    ensures RowsFollow(rows, vs, number, picks, palette)
  {
    forall i | 1 <= i < |vs|
      ensures rows[i] == SpanRow(vs[i].span, number + i, vs[i].depth, vs[i].numOfSpanChildren, palette(picks + i))
    {
      assert rows[i] == rows[1..][i - 1] && vs[i] == vs[1..][i - 1];
    }
  }

  /** Each span gets one row; the rows carry the numbers `number`,
      `number + 1`, ... and the colours of consecutive picks, in preorder. */
  lemma {:induction false} FlatRowsArePreorder(vs: seq<Visit>, number: nat, run: nat, picks: nat,
                                               bounds: Span -> Bounds, palette: nat -> string)
    ensures RowsFollow(SpanRows(FlatItems(vs, number, run, picks, bounds, palette)), vs, number, picks, palette)
    decreases |vs|
  {
    var rows := SpanRows(FlatItems(vs, number, run, picks, bounds, palette));
    if |vs| > 0 {
      var next := Step(run, vs[0], bounds);
      FlatRowsCons(vs, number, run, picks, bounds, palette);
      FlatRowsArePreorder(vs[1..], number + 1, next, picks + 1, bounds, palette);
      assert rows[1..] == SpanRows(FlatItems(vs[1..], number + 1, next, picks + 1, bounds, palette));
      RowsFollowCons(rows, vs, number, picks, palette);
    } else {
      assert FlatItems(vs, number, run, picks, bounds, palette) == [];
    }
  }

  /** The sum of the counts shown by the messages. */
  function MessageTotal(items: seq<Item>): nat {
    if |items| == 0 then 0
    else (if items[0].HiddenMessage? then items[0].count else 0) + MessageTotal(items[1..])
  }

  lemma {:induction false} MessageTotalAppend(a: seq<Item>, b: seq<Item>)
    ensures MessageTotal(a + b) == MessageTotal(a) + MessageTotal(b)
    decreases |a|
  {
    if |a| > 0 {
      assert (a + b)[0] == a[0] && (a + b)[1..] == a[1..] + b;
      MessageTotalAppend(a[1..], b);
    } else {
      assert a + b == b;
    }
  }

  /** How many of the spans are hidden. */
  function CountHidden(vs: seq<Visit>, bounds: Span -> Bounds): nat {
    if |vs| == 0 then 0
    else (if IsHidden(bounds(vs[0].span)) then 1 else 0) + CountHidden(vs[1..], bounds)
  }

  /** Every hidden span is counted exactly once: by the message before the
      next visible span, or by the count left at the end. */
  lemma {:induction false} MessagesCountHiddenSpans(vs: seq<Visit>, number: nat, run: nat, picks: nat,
                                                    bounds: Span -> Bounds, palette: nat -> string)
    ensures MessageTotal(FlatItems(vs, number, run, picks, bounds, palette)) + TrailRun(run, vs, bounds)
         == run + CountHidden(vs, bounds)
    decreases |vs|
  {
    if |vs| > 0 {
      var v := vs[0];
      var msg := if !IsHidden(bounds(v.span)) && run > 0 then [HiddenMessage(run)] else [];
      var row := SpanRow(v.span, number, v.depth, v.numOfSpanChildren, palette(picks));
      var rest := FlatItems(vs[1..], number + 1, Step(run, v, bounds), picks + 1, bounds, palette);
      assert FlatItems(vs, number, run, picks, bounds, palette) == msg + [row] + rest;
      MessageTotalAppend(msg + [row], rest);
      MessageTotalAppend(msg, [row]);
      assert MessageTotal([row]) == 0;
      MessagesCountHiddenSpans(vs[1..], number + 1, Step(run, v, bounds), picks + 1, bounds, palette);
    }
  }

  /** The length of the run of hidden spans at the end of `vs`. */
  function HiddenSuffix(vs: seq<Visit>, bounds: Span -> Bounds): (k: nat)
    ensures k <= |vs|
  {
    if |vs| == 0 then 0
    else if IsHidden(bounds(vs[|vs| - 1].span)) then HiddenSuffix(vs[..|vs| - 1], bounds) + 1
    else 0
  }

  /** The count left after a scan is the trailing run of hidden spans; when
      every span is hidden, the incoming count is carried on top of it. */
  lemma {:induction false} TrailRunIsHiddenSuffix(run: nat, vs: seq<Visit>, bounds: Span -> Bounds)
    ensures TrailRun(run, vs, bounds)
         == if HiddenSuffix(vs, bounds) == |vs| then run + |vs| else HiddenSuffix(vs, bounds)
    decreases |vs|
  {
    if |vs| > 0 {
      var init, last := vs[..|vs| - 1], vs[|vs| - 1];
      assert vs == init + [last];
      TrailRunAppend(run, init, [last], bounds);
      TrailRunIsHiddenSuffix(run, init, bounds);
      assert TrailRun(TrailRun(run, init, bounds), [last], bounds) == Step(TrailRun(run, init, bounds), last, bounds);
    }
  }

  // ---------------------------------------------------------------------
  // Depths and child counts

  lemma {:induction false} VisitsDepths(t: Tree, depth: nat)
    ensures forall i :: 1 <= i < |Visits(t, depth)| ==> Visits(t, depth)[i].depth > depth
    decreases t
  {
    var vs, rest := Visits(t, depth), ForestVisits(t.children, depth);
    ForestVisitsDepths(t.children, depth);
    forall i | 1 <= i < |vs|
      ensures vs[i].depth > depth
    {
      assert vs[i] == rest[i - 1];
    }
  }

  lemma {:induction false} ForestVisitsDepths(ts: seq<Tree>, depth: nat)
    ensures forall i :: 0 <= i < |ForestVisits(ts, depth)| ==> ForestVisits(ts, depth)[i].depth > depth
    decreases ts
  {
    if |ts| > 0 {
      var a, b := Visits(ts[0], depth + 1), ForestVisits(ts[1..], depth);
      VisitsDepths(ts[0], depth + 1);
      ForestVisitsDepths(ts[1..], depth);
      var vs := ForestVisits(ts, depth);
      assert vs == a + b;
      forall i | 0 <= i < |vs|
        ensures vs[i].depth > depth
      {
        if i < |a| {
          assert vs[i] == a[i];
        } else {
          assert vs[i] == b[i - |a|];
        }
      }
    }
  }

  /** The preorder depth profile: each next row is at most one level deeper,
      and exactly one level deeper precisely when the row before it has
      children (its first child comes next). The last row is a leaf. */
  predicate DepthProfile(vs: seq<Visit>) {
    && (|vs| > 0 ==> vs[|vs| - 1].numOfSpanChildren == 0)
    && forall i :: 0 <= i < |vs| - 1 ==>
         && vs[i + 1].depth <= vs[i].depth + 1
         && (vs[i].numOfSpanChildren > 0 <==> vs[i + 1].depth == vs[i].depth + 1)
  }

  lemma {:induction false} VisitsDepthProfile(t: Tree, depth: nat)
    ensures DepthProfile(Visits(t, depth))
    decreases t
  {
    var vs, rest := Visits(t, depth), ForestVisits(t.children, depth);
    ForestVisitsDepthProfile(t.children, depth);
    assert vs == [vs[0]] + rest;
    if |rest| > 0 {
      assert |t.children| > 0;
      assert rest[0] == Visits(t.children[0], depth + 1)[0];
      forall i | 0 <= i < |vs| - 1
        ensures vs[i + 1].depth <= vs[i].depth + 1
        ensures vs[i].numOfSpanChildren > 0 <==> vs[i + 1].depth == vs[i].depth + 1
      {
        if i > 0 {
          assert vs[i] == rest[i - 1] && vs[i + 1] == rest[i];
        }
      }
    }
  }

  lemma {:induction false} ForestVisitsDepthProfile(ts: seq<Tree>, depth: nat)
    ensures DepthProfile(ForestVisits(ts, depth))
    ensures |ts| > 0 ==> |ForestVisits(ts, depth)| > 0 && ForestVisits(ts, depth)[0].depth == depth + 1
    ensures forall i :: 0 <= i < |ForestVisits(ts, depth)| ==> ForestVisits(ts, depth)[i].depth > depth
    decreases ts
  {
    ForestVisitsDepths(ts, depth);
    if |ts| > 0 {
      var a, b := Visits(ts[0], depth + 1), ForestVisits(ts[1..], depth);
      VisitsDepthProfile(ts[0], depth + 1);
      ForestVisitsDepthProfile(ts[1..], depth);
      VisitsDepths(ts[0], depth + 1);
      var vs := ForestVisits(ts, depth);
      assert vs == a + b;
      forall i | 0 <= i < |vs| - 1
        ensures vs[i + 1].depth <= vs[i].depth + 1
        ensures vs[i].numOfSpanChildren > 0 <==> vs[i + 1].depth == vs[i].depth + 1
      {
        if i < |a| - 1 {
          assert vs[i] == a[i] && vs[i + 1] == a[i + 1];
        } else if i == |a| - 1 {
          assert vs[i] == a[i] && vs[i + 1] == b[0];
          assert a[i].depth >= depth + 1;
        } else {
          assert vs[i] == b[i - |a|] && vs[i + 1] == b[i - |a| + 1];
        }
      }
      if |b| == 0 {
        assert vs[|vs| - 1] == a[|a| - 1];
      } else {
        assert vs[|vs| - 1] == b[|b| - 1];
      }
    }
  }

  /** One span's own output: a message carrying the incoming count comes
      first exactly when the span is visible and hidden spans precede it;
      then the span's row, with the children's items after it. */
  lemma MessageBeforeSpan(t: Tree, spanNumber: nat, treeDepth: nat, run: nat,
                          bounds: Span -> Bounds, palette: nat -> string, picks: nat)
    ensures var items := RenderSpan(t, spanNumber, treeDepth, run, bounds, palette, picks).items;
            var row := SpanRow(t.span, spanNumber, treeDepth, |t.children|, palette(picks));
      && |items| >= 1
      && (items[0].HiddenMessage? <==> !IsHidden(bounds(t.span)) && run > 0)
      && (items[0].HiddenMessage? ==> items[0].count == run && |items| >= 2 && items[1] == row)
      && (!items[0].HiddenMessage? ==> items[0] == row)
  {
  }

  /** In a tree unfolded from the lookup, every span's child count is the
      length of its lookup entry (zero for a missing key). */
  lemma {:induction false} VisitsChildCounts(lookup: Lookup, t: Tree, depth: nat)
    requires Consistent(lookup, t)
    ensures forall i :: 0 <= i < |Visits(t, depth)| ==>
      Visits(t, depth)[i].numOfSpanChildren == |ChildrenOf(lookup, Visits(t, depth)[i].span.spanId)|
    decreases t
  {
    var vs, rest := Visits(t, depth), ForestVisits(t.children, depth);
    ForestVisitsChildCounts(lookup, t.children, depth);
    forall i | 1 <= i < |vs|
      ensures vs[i].numOfSpanChildren == |ChildrenOf(lookup, vs[i].span.spanId)|
    {
      assert vs[i] == rest[i - 1];
    }
  }

  lemma {:induction false} ForestVisitsChildCounts(lookup: Lookup, ts: seq<Tree>, depth: nat)
    requires forall i :: 0 <= i < |ts| ==> Consistent(lookup, ts[i])
    ensures forall i :: 0 <= i < |ForestVisits(ts, depth)| ==>
      ForestVisits(ts, depth)[i].numOfSpanChildren == |ChildrenOf(lookup, ForestVisits(ts, depth)[i].span.spanId)|
    decreases ts
  {
    if |ts| > 0 {
      var a, b := Visits(ts[0], depth + 1), ForestVisits(ts[1..], depth);
      VisitsChildCounts(lookup, ts[0], depth + 1);
      ForestVisitsChildCounts(lookup, ts[1..], depth);
      var vs := ForestVisits(ts, depth);
      assert vs == a + b;
      forall i | 0 <= i < |vs|
        ensures vs[i].numOfSpanChildren == |ChildrenOf(lookup, vs[i].span.spanId)|
      {
        if i < |a| {
          assert vs[i] == a[i];
        } else {
          assert vs[i] == b[i - |a|];
        }
      }
    }
  }

  // ---------------------------------------------------------------------
  // The whole view

  /** Once the trace renders, a larger depth bound renders it the same way:
      the bound is not an input of the view. */
  lemma RenderTraceFuelIndependent(trace: Trace, bounds: Span -> Bounds, palette: nat -> string,
                                   fuel: nat, more: nat)
    requires RenderTrace(trace, bounds, palette, fuel).Some? && fuel <= more
    ensures RenderTrace(trace, bounds, palette, more) == RenderTrace(trace, bounds, palette, fuel)
  {
    FromLookupFuelMonotone(trace.lookup, RootSpan(trace), fuel, more);
  }

  /** The rendered trace is the flat scan of the tree's preorder listing,
      followed by a message for the hidden spans left at the end. */
  lemma RenderTraceIsFlatScan(trace: Trace, bounds: Span -> Bounds, palette: nat -> string, fuel: nat)
    requires FromLookup(trace.lookup, RootSpan(trace), fuel).Some?
    ensures var vs := Visits(FromLookup(trace.lookup, RootSpan(trace), fuel).value, 0);
            var run := TrailRun(0, vs, bounds);
      RenderTrace(trace, bounds, palette, fuel).value
        == FlatItems(vs, 1, 0, 0, bounds, palette) + (if run > 0 then [HiddenMessage(run)] else [])
  {
    var root := FromLookup(trace.lookup, RootSpan(trace), fuel).value;
    RenderSpanIsFlatScan(root, 1, 0, 0, bounds, palette, 0);
  }

  /** The rendered trace's rows: one per span of the tree, in preorder,
      numbered from 1 and coloured by consecutive picks of a fresh picker;
      each row's child count is the lookup's; the root row comes first at
      depth 0 and every other row is deeper. */
  lemma RenderTraceRows(trace: Trace, bounds: Span -> Bounds, palette: nat -> string, fuel: nat)
    requires FromLookup(trace.lookup, RootSpan(trace), fuel).Some?
    ensures var vs := Visits(FromLookup(trace.lookup, RootSpan(trace), fuel).value, 0);
            var rows := SpanRows(RenderTrace(trace, bounds, palette, fuel).value);
      && RowsFollow(rows, vs, 1, 0, palette)
      && (forall i :: 0 <= i < |vs| ==> vs[i].numOfSpanChildren == |ChildrenOf(trace.lookup, vs[i].span.spanId)|)
      && rows[0].span == RootSpan(trace) && rows[0].treeDepth == 0
      && (forall i :: 1 <= i < |vs| ==> rows[i].treeDepth > 0)
  {
    var root := FromLookup(trace.lookup, RootSpan(trace), fuel).value;
    var vs := Visits(root, 0);
    var run := TrailRun(0, vs, bounds);
    var flat := FlatItems(vs, 1, 0, 0, bounds, palette);
    var trailing := if run > 0 then [HiddenMessage(run)] else [];
    RenderTraceIsFlatScan(trace, bounds, palette, fuel);
    FlatRowsArePreorder(vs, 1, 0, 0, bounds, palette);
    SpanRowsAppend(flat, trailing);
    assert SpanRows(trailing) == [];
    assert SpanRows(flat + trailing) == SpanRows(flat);
    VisitsChildCounts(trace.lookup, root, 0);
    VisitsDepths(root, 0);
  }

  /** The messages of the rendered trace, the trailing one included, count
      every hidden span exactly once. */
  lemma RenderTraceHiddenTotal(trace: Trace, bounds: Span -> Bounds, palette: nat -> string, fuel: nat)
    requires FromLookup(trace.lookup, RootSpan(trace), fuel).Some?
    ensures MessageTotal(RenderTrace(trace, bounds, palette, fuel).value)
         == CountHidden(Visits(FromLookup(trace.lookup, RootSpan(trace), fuel).value, 0), bounds)
  {
    var vs := Visits(FromLookup(trace.lookup, RootSpan(trace), fuel).value, 0);
    var run := TrailRun(0, vs, bounds);
    var flat := FlatItems(vs, 1, 0, 0, bounds, palette);
    var trailing := if run > 0 then [HiddenMessage(run)] else [];
    RenderTraceIsFlatScan(trace, bounds, palette, fuel);
    MessagesCountHiddenSpans(vs, 1, 0, 0, bounds, palette);
    MessageTotalAppend(flat, trailing);
  }

  /** The rendered rows' depths: the next row is at most one level deeper,
      exactly one level deeper when this row has children, and the last row
      has none. */
  lemma RenderTraceDepthProfile(trace: Trace, bounds: Span -> Bounds, palette: nat -> string, fuel: nat)
    requires FromLookup(trace.lookup, RootSpan(trace), fuel).Some?
    ensures var rows := SpanRows(RenderTrace(trace, bounds, palette, fuel).value);
      && rows[|rows| - 1].numOfSpanChildren == 0
      && forall i :: 0 <= i < |rows| - 1 ==>
           && rows[i + 1].treeDepth <= rows[i].treeDepth + 1
           && (rows[i].numOfSpanChildren > 0 <==> rows[i + 1].treeDepth == rows[i].treeDepth + 1)
  {
    var vs := Visits(FromLookup(trace.lookup, RootSpan(trace), fuel).value, 0);
    var rows := SpanRows(RenderTrace(trace, bounds, palette, fuel).value);
    RenderTraceRows(trace, bounds, palette, fuel);
    VisitsDepthProfile(FromLookup(trace.lookup, RootSpan(trace), fuel).value, 0);
    forall i | 0 <= i < |rows| - 1
      ensures rows[i + 1].treeDepth <= rows[i].treeDepth + 1
      ensures rows[i].numOfSpanChildren > 0 <==> rows[i + 1].treeDepth == rows[i].treeDepth + 1
    {
      assert rows[i].treeDepth == vs[i].depth && rows[i + 1].treeDepth == vs[i + 1].depth;
    }
  }
}
