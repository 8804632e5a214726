# Adjacent events and the transaction view, in Dafny

This project models three small pieces of sequential logic from Sentry and
proves properties of them.

- **The Snuba event-store backend** (`SnubaEventStorage`):
  - `get_next_event_id` and `get_prev_event_id` take an event and build one
    raw query for the event right after it or right before it. Events are
    ordered by the pair (timestamp, event_id).
  - `__get_next_or_prev_event_id` runs that query with limit 1. It reduces
    the answer to `(str(project_id), str(event_id))` or to `None`.
  - The query service is replaced by an in-memory store (`RowStore`). The
    store filters its rows by the window, the conditions and the filter
    keys, sorts them by the requested order, and keeps `limit` rows.
  - Conditions are read as Snuba reads them: the outer list is a
    conjunction and a nested list is a disjunction (`Conditions`).
  - The headline lemmas say that the answer is the least qualifying row
    strictly after the event, or the greatest one strictly before it, in
    (timestamp, event_id) order.
- **The span tree of the transaction view** (`SpanTree`):
  - `renderSpan` is a preorder fold over the parent-to-children lookup. It
    numbers the spans, tracks their depth, picks one colour per span,
    counts runs of hidden spans, and inserts "Number of hidden spans: k"
    messages.
  - The fold is proved equal to a flat left-to-right scan of the tree's
    preorder listing. The numbering, colour and message properties are
    proved about that scan.
- **One span row and the minimap** (`SpanComponent`, `Minimap`, `TraceView`):
  - A span row classifies its timestamps. From that it derives visibility,
    bar geometry, the warning text and the title indent. It also holds two
    toggles, and it sends the minimap a vertical pan when it crosses the
    minimap's lower edge.
  - The minimap draws one 5px bar per span with the same preorder walk.
    So the pan for span number n lands on the bar drawn for that very span
    (`TraceView`).
  - The minimap also covers the cursor and duration guides, the time-axis
    ticks and the fog.

Helper modules: `Wrappers` (`Option`), `LexOrder` (string order),
`Decimal` (`str` of a natural number and its inverse).

Design choices:
- JavaScript numbers are Dafny `real`s. Division by zero at the guides is
  modelled explicitly with a small `JsNumber` type.
- The colour picker is a function `palette: nat -> string`. The k-th call
  returns `palette(k)`, and the folds thread the count of calls made so far.
- `generateBounds` is a function parameter `bounds: Span -> Bounds`.
- The span tree is unfolded from the lookup with a depth bound `fuel`.

The backend code does not tell a store error apart from an empty answer.
Both give `None`, and the model does the same. The code also never checks
that the window's start is at most its end. In the model an inverted
window (an event later than `DEFAULT_END`) matches no row and gives `None`.

## Model

| member | source | states |
|---|---|---|
| SnubaEventStorage.BuildNextQuery | src/sentry/eventstore/snuba/backend.py:19-42 | An absent event builds no query. Otherwise the window is [event time, DEFAULT_END], the order is ascending (timestamp, event_id), the limit is 1 and the columns are event_id, project_id. The caller's conditions come first, unchanged, followed by exactly two more. A row passes the whole list iff it passes the caller's conditions and comes strictly after the event. |
| SnubaEventStorage.BuildPrevQuery | src/sentry/eventstore/snuba/backend.py:44-65 | The mirror image: window [DEFAULT_START, event time], descending order, limit 1. A row passes iff it passes the caller's conditions and comes strictly before the event. |
| SnubaEventStorage.NextTimeConditionsMeanAfter | src/sentry/eventstore/snuba/backend.py:28-31 | Under the AND-of-ORs reading, the two appended conditions hold iff `ts > e.ts` or (`ts == e.ts` and `id > e.id`): lexicographically after the event. |
| SnubaEventStorage.PrevTimeConditionsMeanBefore | src/sentry/eventstore/snuba/backend.py:52-55 | The appended conditions hold iff the row is lexicographically before the event. |
| SnubaEventStorage.NextConditionsMeaning | src/sentry/eventstore/snuba/backend.py:33-34 | Appending the time conditions to the caller's list (`None` read as empty) filters exactly the caller's rows that are after the event. |
| SnubaEventStorage.PrevConditionsMeaning | src/sentry/eventstore/snuba/backend.py:56-57 | The same for the rows before the event. |
| SnubaEventStorage.NextOrderIsKeyOrder | src/sentry/eventstore/snuba/backend.py:41 | The order `['timestamp', 'event_id']` ranks row a no later than row b iff (a.ts, a.id) <= (b.ts, b.id). |
| SnubaEventStorage.PrevOrderIsReversedKeyOrder | src/sentry/eventstore/snuba/backend.py:64 | The order `['-timestamp', '-event_id']` ranks a no later than b iff (b.ts, b.id) <= (a.ts, a.id). |
| SnubaEventStorage.NormalizeResult | src/sentry/eventstore/snuba/backend.py:75-80 | An error or empty data gives `None`. Otherwise the pair is built from row 0 only, project id first: the project string is the canonical decimal form of row 0's project id (all digits, no leading zero except for 0 itself, parsing back to the id), and the event string is row 0's event id. |
| SnubaEventStorage.GetNextEventId | src/sentry/eventstore/snuba/backend.py:19-42 | An absent event gives `None`, and a failing store gives `None`. |
| SnubaEventStorage.GetPrevEventId | src/sentry/eventstore/snuba/backend.py:44-65 | An absent event gives `None`, and a failing store gives `None`. |
| SnubaEventStorage.AbsentEventIssuesNoQuery | src/sentry/eventstore/snuba/backend.py:25-26 | For an absent event neither builder produces a query, and both lookups return `None` whatever the store holds. |
| SnubaEventStorage.NextEventIsSuccessor | src/sentry/eventstore/snuba/backend.py:19-80 | The next lookup gives `None` iff no row of the store is a candidate (after the event, inside the window, passing conditions and filter keys). Otherwise it gives the reference of a candidate that is no later than every other candidate. |
| SnubaEventStorage.PrevEventIsPredecessor | src/sentry/eventstore/snuba/backend.py:44-80 | The previous lookup gives `None` iff no row is a candidate before the event. Otherwise it gives a candidate that is no earlier than every other candidate. |
| SnubaEventStorage.PrevScenario | tests/sentry/eventstore/snuba/test_backend.py:52-62 | With a (project 1, two minutes ago) and b, c (project 2, one minute ago), the event before b is ("1", a's id). |
| SnubaEventStorage.NextScenario | tests/sentry/eventstore/snuba/test_backend.py:52-65 | In the same scenario the event after b is ("2", c's id): equal timestamps are ordered by event id. |
| SnubaEventStorage.ScenarioIdsAscending | tests/sentry/eventstore/snuba/test_backend.py:19-48 | The ids 'a'*32, 'b'*32 and 'c'*32 are in ascending string order, so the two scenario lemmas apply to them. |
| RowStore.RawQuery | src/sentry/eventstore/snuba/backend.py:67-73 | The store stand-in: it errs iff the store is failing. Otherwise it returns at most `limit` rows, sorted, each one in the store and matching. The answer is empty iff the limit is 0 or nothing matches, and its first row ranks no later than every matching row. |
| RowStore.Sort | src/sentry/eventstore/snuba/backend.py:67-73 | The stand-in's sort returns a permutation of its input that is sorted by the order keys. |
| Conditions.SatisfiesAllAppend | src/sentry/eventstore/snuba/backend.py:33-34 | A row passes a concatenated condition list iff it passes both parts. |
| Decimal.ParseNatToString | src/sentry/eventstore/snuba/backend.py:80 | `str` of a project id parses back to the same id. |
| Decimal.NatToStringInjective | src/sentry/eventstore/snuba/backend.py:80 | Different project ids give different strings. |
| LexOrder.StrLessTotal | src/sentry/eventstore/snuba/backend.py:30 | The order on event ids is total: two ids are equal or one is less. |
| LexOrder.StrLessTransitive | src/sentry/eventstore/snuba/backend.py:30 | The order on event ids is transitive. |
| SpanTree.ChildrenOf | src/sentry/static/sentry/app/views/organizationEventsV2/transactionView/spanTree.tsx:60 | A span id in the lookup has exactly the lookup's list as its children, and one missing from it has none. |
| SpanTree.FromLookup | src/sentry/static/sentry/app/views/organizationEventsV2/transactionView/spanTree.tsx:60-107 | The unfolded tree has the given root, and every node's children are exactly the lookup's entry for its id, in order. |
| SpanTree.FromLookupFuelMonotone | src/sentry/static/sentry/app/views/organizationEventsV2/transactionView/spanTree.tsx:60-107 | Once the lookup unfolds within a depth bound, every larger bound yields the same tree: the bound decides only whether there is a tree. |
| SpanTree.RenderSpanIsFlatScan | src/sentry/static/sentry/app/views/organizationEventsV2/transactionView/spanTree.tsx:35-139 | `renderSpan` on a subtree produces exactly the flat scan of its preorder listing. It returns `spanNumber + size` as the next number, the scan's final hidden count, and one colour pick per span. |
| SpanTree.RenderChildrenIsFlatScan | src/sentry/static/sentry/app/views/organizationEventsV2/transactionView/spanTree.tsx:75-107 | The `reduce` over the children advances the accumulator by the flat scan of the children's preorder listing, each child one level deeper. |
| SpanTree.AdvanceAppend | src/sentry/static/sentry/app/views/organizationEventsV2/transactionView/spanTree.tsx:96-98 | Threading the accumulator through one sibling and then the next is the same as scanning both listings at once. |
| SpanTree.FlatRowsArePreorder | src/sentry/static/sentry/app/views/organizationEventsV2/transactionView/spanTree.tsx:119-137 | The scan yields exactly one row per span, in preorder. Row i carries span number `number + i`, the span's depth and child count, and colour pick `picks + i`. |
| SpanTree.RenderTrace | src/sentry/static/sentry/app/views/organizationEventsV2/transactionView/spanTree.tsx:178-200 | The view renders iff the lookup unfolds within the depth bound. |
| SpanTree.RenderTraceFuelIndependent | src/sentry/static/sentry/app/views/organizationEventsV2/transactionView/spanTree.tsx:178-200 | Once the trace renders, a larger depth bound renders exactly the same items. |
| SpanTree.RenderTraceIsFlatScan | src/sentry/static/sentry/app/views/organizationEventsV2/transactionView/spanTree.tsx:141-200 | The rendered trace is the flat scan of the whole tree, starting at number 1 with no hidden spans above. A trailing message follows iff the final count is positive. |
| SpanTree.RenderTraceRows | src/sentry/static/sentry/app/views/organizationEventsV2/transactionView/spanTree.tsx:141-175 | The rows are the tree's spans in preorder, numbered 1..N, coloured by consecutive picks of a fresh picker, with the lookup's child counts. The first row is the root span (op 'transaction', the trace's start and end) at depth 0, and every other row is deeper. |
| SpanTree.RenderTraceHiddenTotal | src/sentry/static/sentry/app/views/organizationEventsV2/transactionView/spanTree.tsx:182-199 | In the fully expanded listing, the counts shown by all messages, the trailing one included, add up to the number of hidden spans. |
| SpanTree.MessagesCountHiddenSpans | src/sentry/static/sentry/app/views/organizationEventsV2/transactionView/spanTree.tsx:109-117 | The counts in a scan's messages plus the count it leaves over equal the incoming count plus the hidden spans scanned. |
| SpanTree.MessageBeforeSpan | src/sentry/static/sentry/app/views/organizationEventsV2/transactionView/spanTree.tsx:109-124 | A message precedes a span's row iff the span is visible and the incoming count is positive, and it shows that count. |
| SpanTree.TrailRunIsHiddenSuffix | src/sentry/static/sentry/app/views/organizationEventsV2/transactionView/spanTree.tsx:96-105 | The returned count is the length of the trailing run of hidden spans, plus the incoming count when every span is hidden. |
| SpanTree.VisitsDepths | src/sentry/static/sentry/app/views/organizationEventsV2/transactionView/spanTree.tsx:81 | Every span below the root of a subtree is deeper than that root. |
| SpanTree.VisitsDepthProfile | src/sentry/static/sentry/app/views/organizationEventsV2/transactionView/spanTree.tsx:79-81 | In preorder the next span is at most one level deeper, and exactly one level deeper iff the current span has children. The last span has none. |
| SpanTree.RenderTraceDepthProfile | src/sentry/static/sentry/app/views/organizationEventsV2/transactionView/spanTree.tsx:75-107 | The same depth profile holds for the rendered rows. |
| SpanTree.VisitsChildCounts | src/sentry/static/sentry/app/views/organizationEventsV2/transactionView/spanTree.tsx:130 | Each span's `numOfSpanChildren` is the length of the lookup's entry for it. |
| SpanComponent.ParseSpanTimestamps | src/sentry/static/sentry/app/views/organizationEventsV2/transactionView/span.tsx:415-428 | Trichotomy: Stable iff start < end, Equal iff start == end, Reversed iff start > end. |
| SpanComponent.SwappedTimestamps | src/sentry/static/sentry/app/views/organizationEventsV2/transactionView/span.tsx:415-428 | Swapping start and end swaps Stable with Reversed, keeps Equal, and keeps the duration. |
| SpanComponent.Duration | src/sentry/static/sentry/app/views/organizationEventsV2/transactionView/span.tsx:181 | The displayed duration is never negative, is 0 exactly for an Equal span, and does not depend on the direction of subtraction. |
| SpanComponent.WarningText | src/sentry/static/sentry/app/views/organizationEventsV2/transactionView/span.tsx:194-199 | There is no warning iff the span is Stable. Equal and Reversed spans get their own messages. |
| SpanComponent.WarningsDiffer | src/sentry/static/sentry/app/views/organizationEventsV2/transactionView/span.tsx:194-199 | The Equal and Reversed warnings differ. |
| SpanComponent.IsVisible | src/sentry/static/sentry/app/views/organizationEventsV2/transactionView/span.tsx:189-192 | A non-Stable span's row is always displayed. |
| SpanComponent.StableVisibilityAgreesWithSpanTree | src/sentry/static/sentry/app/views/organizationEventsV2/transactionView/span.tsx:189-192 | For a Stable span the row is displayed iff the span tree does not count it as hidden. |
| SpanComponent.NonStableVisibilityMayDisagree | src/sentry/static/sentry/app/views/organizationEventsV2/transactionView/span.tsx:189-192 | A Reversed span can be counted as hidden by the span tree while its row is still displayed. |
| SpanComponent.SpanBarGeometry | src/sentry/static/sentry/app/views/organizationEventsV2/transactionView/span.tsx:201-203 | A Stable span's bar spans exactly [bounds.start, bounds.end]. Any other span's bar spans the whole timeline [0, 1]. |
| SpanComponent.BarVisibleIffOnTimeline | src/sentry/static/sentry/app/views/organizationEventsV2/transactionView/span.tsx:189-203 | A Stable row is displayed iff its bar overlaps the timeline [0, 1]; a row that is not displayed has its bar wholly left of 0 or right of 1; any other row is displayed with a bar filling the timeline. |
| SpanComponent.TitleIndent | src/sentry/static/sentry/app/views/organizationEventsV2/transactionView/span.tsx:134-139 | At depth 0 the indent is the 8px left margin, and each further level adds one 40px toggle button and its 8px margin: depth × 48 + 8. |
| SpanComponent.TitleIndentIncreasing | src/sentry/static/sentry/app/views/organizationEventsV2/transactionView/span.tsx:134-139 | Deeper rows are indented strictly further. |
| SpanComponent.ToggleSpanTree | src/sentry/static/sentry/app/views/organizationEventsV2/transactionView/span.tsx:63-69 | Flips `showSpanTree` and leaves `displayDetail` alone. |
| SpanComponent.ToggleDisplayDetail | src/sentry/static/sentry/app/views/organizationEventsV2/transactionView/span.tsx:71-77 | Flips `displayDetail` and leaves `showSpanTree` alone. |
| SpanComponent.TogglesAreInvolutions | src/sentry/static/sentry/app/views/organizationEventsV2/transactionView/span.tsx:63-77 | Each toggle undone by itself restores the state, and the two toggles commute. |
| SpanComponent.RenderSpanChildren | src/sentry/static/sentry/app/views/organizationEventsV2/transactionView/span.tsx:167-173 | The children are shown iff `showSpanTree`, and nothing is shown otherwise. |
| SpanComponent.DetailPanelFollowsToggles | src/sentry/static/sentry/app/views/organizationEventsV2/transactionView/span.tsx:71-82 | The detail panel is never drawn for a hidden row. Toggling the detail flips whether a visible row shows it. Collapsing or expanding the subtree leaves it as it was. |
| SpanComponent.InitialRowRendering | src/sentry/static/sentry/app/views/organizationEventsV2/transactionView/span.tsx:52-55 | A fresh row shows its children and no detail panel. |
| SpanComponent.PanOffset | src/sentry/static/sentry/app/views/organizationEventsV2/transactionView/span.tsx:306-358 | A pan is sent only for a readable span number. Its value is (n-1) bars of 5px plus the row's hidden fraction of one bar. |
| SpanComponent.PanSentIffRowStraddlesMinimapEdge | src/sentry/static/sentry/app/views/organizationEventsV2/transactionView/span.tsx:321-344 | For a readable span number a pan is sent iff the row's top is at or above the minimap's bottom edge (106px) and its bottom is below it. |
| SpanComponent.PanWithinSpanBar | src/sentry/static/sentry/app/views/organizationEventsV2/transactionView/span.tsx:346-356 | For a visible ratio in [0, 1] the pan for span n lies in [(n-1)*5, n*5]. |
| Minimap.MinimapBars | src/sentry/static/sentry/app/views/organizationEventsV2/transactionView/minimap.tsx:358-393 | The first bar is the span's own, with the first colour picked. One colour is picked per bar drawn. |
| Minimap.DrawMinimap | src/sentry/static/sentry/app/views/organizationEventsV2/transactionView/minimap.tsx:339-356 | When drawn, the minimap starts with the root span's bar in the first colour of a fresh picker. |
| Minimap.MinimapBarsArePreorder | src/sentry/static/sentry/app/views/organizationEventsV2/transactionView/minimap.tsx:358-393 | The minimap draws one bar per span of the tree, in the span tree's preorder. Bar i belongs to the i-th span and has the i-th colour pick. |
| Minimap.MinimapChildBarsArePreorder | src/sentry/static/sentry/app/views/organizationEventsV2/transactionView/minimap.tsx:373-385 | The same for the `reduce` over a list of children. |
| Minimap.Divide | src/sentry/static/sentry/app/views/organizationEventsV2/transactionView/minimap.tsx:57 | A division by a non-zero width is exact. Division of a positive number by zero gives +Infinity, a negative one gives -Infinity, and 0/0 gives NaN (and only 0/0 does). |
| Minimap.Clamp | src/sentry/static/sentry/app/views/organizationEventsV2/transactionView/minimap.tsx:56-60 | A clamped number is finite and lies in [lo, hi] unless it is NaN. It is unchanged if already there. A finite number below lo becomes lo, and one above hi becomes hi. +Infinity becomes hi, -Infinity becomes lo, and NaN stays NaN. |
| Minimap.OnMouseEnterOrMove | src/sentry/static/sentry/app/views/organizationEventsV2/transactionView/minimap.tsx:413-427 | Entering or moving (both handlers set the same state) shows the guide at the mouse's page x and keeps the rest of the state. |
| Minimap.OnMouseLeave | src/sentry/static/sentry/app/views/organizationEventsV2/transactionView/minimap.tsx:419-421 | Leaving clears both the flag and the position. |
| Minimap.GuidesFollowTheMouse | src/sentry/static/sentry/app/views/organizationEventsV2/transactionView/minimap.tsx:43-45 | No guide is drawn initially or after leaving. After entering or moving, the guides are drawn iff the page x is not 0 (0 is falsy). |
| Minimap.CursorGuideX | src/sentry/static/sentry/app/views/organizationEventsV2/transactionView/minimap.tsx:42-73 | The guide is drawn iff the guides are on and the layer exists. For a layer of non-zero width, x is the mouse's offset into the layer as a percentage of the width, clamped to [0, 100]. For a zero-width layer, x is 100 right of the layer, 0 left of it, and NaN at its edge. It is never infinite. |
| Minimap.RenderDurationGuide | src/sentry/static/sentry/app/views/organizationEventsV2/transactionView/minimap.tsx:196-226 | Drawn under the same condition. The fraction is the mouse's offset divided by the layer width, clamped to [0, 1]. A finite fraction lies in [0, 1]. The duration is then that fraction times the absolute trace duration, so it lies between 0 and the trace's duration. The label aligns left iff (1 - fraction) * width <= 100. A NaN fraction gives a NaN duration and right alignment, and NaN in one goes with NaN in the other. |
| Minimap.TimeAxisTicks | src/sentry/static/sentry/app/views/organizationEventsV2/transactionView/minimap.tsx:228-280 | Five ticks from 0 to the trace's duration, non-decreasing and evenly spaced by a quarter of the duration. |
| Minimap.RenderFog | src/sentry/static/sentry/app/views/organizationEventsV2/transactionView/minimap.tsx:182-194 | Two fog rectangles: [0, viewWindowStart] and [viewWindowEnd, 1]. |
| Minimap.FogLeavesOnlyTheViewWindow | src/sentry/static/sentry/app/views/organizationEventsV2/transactionView/minimap.tsx:182-194 | For a window inside [0, 1], a point outside the window is fogged and a point strictly inside is clear. The fog covers exactly the width the window leaves over. |
| TraceView.MinimapBarsMatchSpanRows | src/sentry/static/sentry/app/views/organizationEventsV2/transactionView/minimap.tsx:343-393 | Minimap bar i and span-tree row i are drawn for the same span with the same colour, and that row carries span number i+1. |
| TraceView.PanLandsOnTheRowsOwnBar | src/sentry/static/sentry/app/views/organizationEventsV2/transactionView/span.tsx:346-358 | The pan a row sends lies on the minimap bar drawn for that row's own span. |
| TraceView.TogglerIffLookupHasChildren | src/sentry/static/sentry/app/views/organizationEventsV2/transactionView/span.tsx:103-105 | A rendered row shows its children toggler iff the lookup lists children for its span. |

## Left out

- RowStore.Matches: both ends of the time window are taken as inclusive; whether the query service treats `end` (and `start`) inclusively is not stated by the backend code. The equal-timestamp cases of SnubaEventStorage.NextEventIsSuccessor and SnubaEventStorage.PrevEventIsPredecessor rely on this: a row sharing the event's timestamp is a candidate only because that timestamp equals the window's bound. How the real service answers an inverted window (start after end), and any exception `raw_query` raises, are not modelled: the backend catches none, so such an exception would reach the caller rather than become `None`.
- The query service behind `snuba.raw_query` is not part of this model. It is replaced by `RowStore`: a sequence of rows, an inclusive time window, and an insertion sort on the order keys. Other storage and engine behaviour is out of scope.
- Retention clamping of `DEFAULT_START` and `DEFAULT_END` is not modelled. `DEFAULT_START` is the epoch (0), and `DEFAULT_END` (the time at import) is a parameter of the next lookup.
- `conditions.extend` mutates the caller's list in place. The model builds a new sequence, so the aliasing (the caller's list growing by two) is not represented.
- Timestamps are whole seconds. `event.datetime` and `event.timestamp` are taken to be the same instant.
- Project ids are natural numbers, so `str(project_id)` is a decimal string. Event ids are compared as plain character sequences.
- Any column other than timestamp, event_id and project_id is read from a row's attribute map. A missing attribute fails every comparison.
- Rendering is left out: React elements, styled-components CSS, SVG markup, tooltips, the title text, divider lines, and the view handles (`renderViewHandles`).
- The IntersectionObserver setup (`INTERSECTION_THRESHOLDS`, root margin, observe and disconnect) is left out. The observer's entry is a record, and reading `data-span-number` back is an `Option<real>`.
- SpanComponent.WarningText: both warnings go through the translation function `t(...)`; localisation is not modelled, so the texts are the English source strings and SpanComponent.WarningsDiffer is a fact about those strings only.
- IEEE-754 rounding is not modelled: numbers are exact reals.
- The helpers in `./utils` are not part of this model:
  - `boundsGenerator` is a function parameter;
  - `clamp` is taken as min/max with infinities and NaN handled as JavaScript's `Math.min`/`Math.max` do;
  - `generateSpanColourPicker` is a deterministic `palette` indexed by the number of earlier picks;
  - `toPercent`, `getHumanDuration` and `rectOfContent` are not modelled (the content rect is a parameter).
- The `startViewHandleX` state field is carried but never read by the modelled code.
- SpanTree.FromLookup: the view recurses without bound on a cyclic lookup. The model unfolds at most `fuel` levels and returns `None` beyond that, so non-termination itself is not represented.
- Minimap.MinimapBars: bounded by the same `fuel`, for the same reason.
- SpanTree.RenderTraceHiddenTotal: the total is about the fully expanded listing. A row whose subtree is collapsed (`showSpanTree` false) does not display its children's items, messages included. That per-row state is not threaded into the span-tree model; SpanComponent.RenderSpanChildren states the collapse row by row.
