# Moore-neighbour contour tracing, modelled in Dafny

This project models `ContourTrace.Trace`, a Moore-neighbour contour tracer.
It also models the small `Point` value type the tracer uses. The tracer
takes a black-and-white image as a `bool[,]` indexed `[y, x]`. It returns
the set of pixels on the outline of the first foreground region it meets.
It works in two stages:

1. **Scan.** The rows are read from the last one (`y = Length0 - 1`) down to
   row 0, each left to right. The first foreground cell becomes `first`.
   The cell it was entered from becomes `firstPrev`: that is the cell to its
   left, or `(0, y - 1)` when `first` is in column 0.
2. **Walk.** The state is `(boundary, prev, curr)` plus the outline set.
   - If `curr` is an in-grid foreground cell, it is accepted: it joins the
     outline, becomes `boundary`, and the old boundary becomes `prev`.
   - Otherwise the walk turns one position clockwise around `boundary`.
   - A fixed 8-entry offset table drives each turn.
   - The loop stops by Jacob's criterion: `curr == first` and
     `prev == firstPrev`.

Files:

- `points.dfy`, module `Points`: the `Point` datatype and its operators.
- `contour_trace.dfy`, module `ContourTrace`:
  - the offset table and `Clockwise`;
  - the scan (`Scan`, and the `FindStart` loops proved against it);
  - the walk (`Step`, `Walk`, `TraceSpec`);
  - the `Trace` method, whose loop is proved to compute `TraceSpec`.
- `trace_properties.dfy`, module `TraceProperties`: properties of `TraceSpec`.

### The step budget

The source loop is not guaranteed to stop. `Trace` therefore takes a budget
`fuel` of walk iterations and returns `Traced(outline)` or `OutOfFuel`. A
`Traced` result is exactly the outline the unbounded loop returns.
`TraceFuelMonotone` shows that a larger budget never changes a finished
result.

### What is proved about termination

The model proves three classes of input where no budget is enough:

- a start pixel with no foreground neighbour, such as a single-pixel image;
- more generally, a start pixel whose foreground neighbours are not
  neighbours of its entry cell (`NoReentry`);
- a start pixel off column 0 whose cells below and below-left are
  background, such as a horizontal run of pixels with nothing beneath it.

The reason for the last two: after a pixel is accepted, the code moves
`prev` back to the previous boundary pixel. So `prev` can equal `firstPrev`
while `curr == first` only when `boundary` is next to both cells.

To show that the `Traced` branch is reachable, `IsolatedPairWalk` follows a
horizontal pair entered from below. That walk finishes after 13 iterations.

### Code versus documentation

The doc comment of `Trace` gives pseudo-code that stops when `c == s`
(ContourTrace.cs:60). The code stops only when both `curr == first` and
`prev == firstPrev` hold (ContourTrace.cs:115). The model follows the code.

The offset table is copied as written, including its naming: `(0, -1)` is
called "down", which is the previous row index.

## Model

| member | source | states |
|---|---|---|
| Points.Sub | Point.cs:13-16 | the difference is the zero offset exactly when the two points are equal |
| Points.Eq | Point.cs:28-31 | fieldwise comparison holds exactly when the two points are the same value |
| Points.NotEq | Point.cs:18-21 | `!=` holds exactly when the points differ |
| Points.SubAddRoundTrip | Point.cs:13-26 | `(a - b) + b == a` and `(a + b) - b == a` |
| Points.AddCommutes | Point.cs:23-26 | `a + b == b + a` |
| Points.SubSelf | Point.cs:13-16 | `a - a` is the zero point |
| ContourTrace.ClockwiseOffsetDomain | ContourTrace.cs:36-46 | the table's keys are exactly the eight non-zero unit offsets; every value is one of them; the keys are the entries of the clockwise cycle |
| ContourTrace.ClockwiseOffsetCycle | ContourTrace.cs:38-45 | the table maps right to down-right, down-right to down, and so on round to top-right to right |
| ContourTrace.CycleStep | ContourTrace.cs:36-46 | each entry of the cycle is sent to the next entry, wrapping round after top-right |
| ContourTrace.RotateAlongCycle | ContourTrace.cs:36-46 | `k` applications of the table, for `k` up to 8, move `k` places along the cycle |
| ContourTrace.ClockwiseOffsetIsEightCycle | ContourTrace.cs:36-46 | eight applications of the table return to the starting offset, and fewer never do |
| ContourTrace.Clockwise | ContourTrace.cs:137-140 | defined when `prev - target` is a non-zero unit offset, which is the condition under which the lookup succeeds; the result is again a neighbour of `target`, different from `prev` |
| ContourTrace.ClockwiseFollowsCycle | ContourTrace.cs:137-140 | the offset of the result from `target` is the entry after the offset of `prev` in the clockwise cycle |
| ContourTrace.ClockwiseTurnsAround | ContourTrace.cs:137-140 | around any pixel, repeated calls visit below, below-left, left, above-left, above, above-right, right, below-right and back to below |
| ContourTrace.Scan | ContourTrace.cs:88-101 | a start pixel found from cell (x, y) on is foreground and not before (x, y) in scan order; its entry cell is the cell to its left, or (0, y - 1) in column 0, and is a neighbour of it |
| ContourTrace.ScanSkipsBackground | ContourTrace.cs:88-104 | every cell the scan passes over is background: all remaining cells when nothing is found, and every cell before the start pixel when one is |
| ContourTrace.FindStart | ContourTrace.cs:87-104 | the nested scan loops, with the early exit, return the scan's result |
| ContourTrace.Step | ContourTrace.cs:117-132 | one loop iteration keeps `prev` a neighbour of `boundary` and `curr == Clockwise(boundary, prev)`, and never removes a pixel from the outline |
| ContourTrace.StepKeepsSound | ContourTrace.cs:119-127 | each iteration keeps the current boundary pixel in the outline and the outline within in-grid foreground cells |
| ContourTrace.WalkSound | ContourTrace.cs:106-134 | a walk that finishes returns a superset of the outline it started with, and every pixel in it is an in-grid foreground cell |
| ContourTrace.WalkAdvance | ContourTrace.cs:115-133 | when the stopping test fails, the walk continues from the next state with one iteration less |
| ContourTrace.Trace | ContourTrace.cs:76-135 | the method returns exactly `TraceSpec(image, fuel)`, and a finished outline is all in-grid foreground cells |
| TraceProperties.StartNotFoundIff | ContourTrace.cs:88-104 | the scan finds no start pixel exactly when the image has no foreground cell |
| TraceProperties.StartIsFirstForeground | ContourTrace.cs:88-99 | the start pixel is foreground; every other foreground cell comes after it in scan order; every cell before it is background; its entry cell is the left cell or (0, y - 1), a neighbour of it |
| TraceProperties.TraceEmptyIff | ContourTrace.cs:88-108 | the outline is empty exactly when the image has no foreground cell |
| TraceProperties.TraceOutlineSound | ContourTrace.cs:106-134 | a finished outline holds the start pixel, and every pixel in it is an in-grid foreground cell |
| TraceProperties.WalkFuelMonotone | ContourTrace.cs:115-133 | a walk that finishes within a budget gives the same result with any larger budget |
| TraceProperties.TraceFuelMonotone | ContourTrace.cs:76-135 | a trace that finishes within a budget gives the same outline with any larger budget |
| TraceProperties.WalkExitsOnlyAtEntry | ContourTrace.cs:115-134 | a finished walk stops at a reachable state where `curr == first` and `prev == firstPrev`, and returns that state's outline |
| TraceProperties.WalkWithoutReentryNeverStops | ContourTrace.cs:115-133 | when no foreground neighbour of `first` is also a neighbour of `firstPrev`, the walk never stops |
| TraceProperties.NoReentryNeverFinishes | ContourTrace.cs:106-133 | the same condition on the start pixel makes every budget run out |
| TraceProperties.IsolatedStartNeverFinishes | ContourTrace.cs:106-133 | a start pixel with no foreground neighbour makes every budget run out |
| TraceProperties.SinglePixelNeverFinishes | ContourTrace.cs:88-133 | an image with exactly one foreground pixel makes every budget run out |
| TraceProperties.EnteredFromLeftNeverFinishes | ContourTrace.cs:88-133 | a start pixel off column 0 whose cells below and below-left are background makes every budget run out |
| TraceProperties.IsolatedPairWalk | ContourTrace.cs:106-133 | a horizontal pair with no other foreground neighbour, entered at its left pixel from below, is traced in 13 iterations with both pixels as outline |
| TraceProperties.IsolatedPairInFirstColumnTraced | ContourTrace.cs:88-134 | when the start pixel is in column 0 and forms such a pair, any budget of at least 13 returns both pixels |

## Left out

- Demo/Program.cs is not part of this model. It only reads files, draws on the console and sleeps.
- Non-termination: the source loop can run forever. The model bounds it with a step budget, and `OutOfFuel` stands for "not finished yet".
- Output order: `HashSet.ToArray` gives an unspecified order, so the outline is a `set<Point>`.
- 32-bit wrap-around in `Point` arithmetic: coordinates stay within [-1, dimension], so unbounded integers are used.
- .NET's default `Equals`/`GetHashCode` for the struct, used by `Dictionary` and `HashSet`: modelled as value equality of the two fields.
- Points.Add: has no contract of its own. Its meaning is stated by `SubAddRoundTrip` and `AddCommutes`.
- Outlines of larger regions in closed form, and the general termination question: only the cases listed above are proved.
- The source reads the image in place and never writes it. `Trace` has no `modifies` clause, which states the same thing. Reads are checked to be in bounds.
