// Moore-neighbour contour tracing of a boolean image indexed [y, x]: a scan
// for the start pixel (last row first, left to right within a row), then a
// clockwise walk around the region's boundary that stops by Jacob's
// criterion (the start pixel is re-entered from the cell it was first
// entered from).
//
// The walk is not guaranteed to stop, so Trace takes a step budget `fuel`
// and reports OutOfFuel when it is used up; every other result is the one
// the unbounded loop returns.

module ContourTrace {
  import opened Points

  // ---------------------------------------------------------------------
  // The clockwise offset table
  // ---------------------------------------------------------------------

  // The eight unit offsets, named as the table names them ("down" is y - 1).
  const Right := Point(1, 0)
  const DownRight := Point(1, -1)
  const Down := Point(0, -1)
  const DownLeft := Point(-1, -1)
  const Left := Point(-1, 0)
  const TopLeft := Point(-1, 1)
  const Top := Point(0, 1)
  const TopRight := Point(1, 1)

  /** The clockwise order of the Moore neighbourhood, starting from Right. */
  const Cycle: seq<Point> := [Right, DownRight, Down, DownLeft, Left, TopLeft, Top, TopRight]

  /** For each offset, the offset next to it clockwise. */
  const ClockwiseOffset: map<Point, Point> := map[
    Point(1, 0) := Point(1, -1),
    Point(1, -1) := Point(0, -1),
    Point(0, -1) := Point(-1, -1),
    Point(-1, -1) := Point(-1, 0),
    Point(-1, 0) := Point(-1, 1),
    Point(-1, 1) := Point(0, 1),
    Point(0, 1) := Point(1, 1),
    Point(1, 1) := Point(1, 0)
  ]

  /** One of the eight offsets to a Moore neighbour. */
  predicate IsUnitOffset(d: Point)
  {
    -1 <= d.x <= 1 && -1 <= d.y <= 1 && d != Origin
  }

  /** The table's keys are exactly the eight unit offsets, and it maps each to another one. */
  lemma ClockwiseOffsetDomain()
    ensures forall d :: d in ClockwiseOffset <==> IsUnitOffset(d)
    ensures forall d :: d in ClockwiseOffset ==> IsUnitOffset(ClockwiseOffset[d])
    ensures forall d :: d in ClockwiseOffset <==> d in Cycle
  {
  }

  lemma UnitOffsetIsKey(d: Point)
    requires IsUnitOffset(d)
    ensures d in ClockwiseOffset && IsUnitOffset(ClockwiseOffset[d])
  {
  }

  /** The table is the cycle right, down-right, down, down-left, left, top-left, top, top-right. */
  lemma ClockwiseOffsetCycle()
    ensures ClockwiseOffset[Right] == DownRight && ClockwiseOffset[DownRight] == Down
    ensures ClockwiseOffset[Down] == DownLeft && ClockwiseOffset[DownLeft] == Left
    ensures ClockwiseOffset[Left] == TopLeft && ClockwiseOffset[TopLeft] == Top
    ensures ClockwiseOffset[Top] == TopRight && ClockwiseOffset[TopRight] == Right
  {
  }

  /** Position `j` of Cycle counted round past its end, for `j` below two full turns. */
  function Wrap(j: nat): (r: nat)
    requires j < 16
    ensures r < 8
  {
    if j < 8 then j else j - 8
  }

  /** The table sends entry `i` of Cycle to the entry after it, wrapping round. */
  lemma CycleStep(i: nat)
    requires i < 8
    ensures |Cycle| == 8 && Cycle[i] in ClockwiseOffset
    ensures ClockwiseOffset[Cycle[i]] == Cycle[Wrap(i + 1)]
  {
    ClockwiseOffsetCycle();
  }

  /** The position of an offset in Cycle. */
  function CycleIndex(d: Point): nat
  {
    if d == Right then 0 else if d == DownRight then 1 else if d == Down then 2
    else if d == DownLeft then 3 else if d == Left then 4 else if d == TopLeft then 5
    else if d == Top then 6 else 7
  }

  /** CycleIndex inverts Cycle, so the entries of Cycle are pairwise distinct. */
  lemma CycleIndexInverts(i: nat)
    requires i < 8
    ensures CycleIndex(Cycle[i]) == i
  {
  }

  lemma CycleIndexFinds(d: Point)
    requires d in ClockwiseOffset
    ensures CycleIndex(d) < 8 && Cycle[CycleIndex(d)] == d
  {
  }

  /** The table applied `n` times to `d`. */
  function Rotate(d: Point, n: nat): (r: Point)
    requires d in ClockwiseOffset
    ensures r in ClockwiseOffset
    decreases n
  {
    if n == 0 then d else Rotate(ClockwiseOffset[d], n - 1)
  }

  /** Up to a full turn, `k` applications of the table move `k` places along Cycle. */
  lemma {:induction false} RotateAlongCycle(i: nat, k: nat)
    requires i < 8 && k <= 8
    ensures |Cycle| == 8 && Cycle[i] in ClockwiseOffset
    ensures Rotate(Cycle[i], k) == Cycle[Wrap(i + k)]
    decreases k
  {
    CycleStep(i);
    if k > 0 {
      RotateAlongCycle(Wrap(i + 1), k - 1);
    }
  }

  /** The table is a single 8-cycle: eight applications return to the start, fewer never do. */
  lemma ClockwiseOffsetIsEightCycle(d: Point)
    requires d in ClockwiseOffset
    ensures Rotate(d, 8) == d
    ensures forall k :: 0 < k < 8 ==> Rotate(d, k) != d
  {
    var i := CycleIndex(d);
    CycleIndexFinds(d);
    RotateAlongCycle(i, 8);
    forall k | 0 < k < 8
      ensures Rotate(d, k) != d
    {
      RotateAlongCycle(i, k);
      CycleIndexInverts(i);
      CycleIndexInverts(Wrap(i + k));
    }
  }

  /**
   * The neighbour of `target` next clockwise after its neighbour `prev`. The
   * table lookup fails unless `prev` is a Moore neighbour of `target`.
   */
  function Clockwise(target: Point, prev: Point): (r: Point)
    requires IsUnitOffset(Sub(prev, target))
    ensures IsUnitOffset(Sub(r, target)) && r != prev
  {
    UnitOffsetIsKey(Sub(prev, target));
    Add(ClockwiseOffset[Sub(prev, target)], target)
  }

  /** Clockwise moves one place along Cycle around `target`. */
  lemma ClockwiseFollowsCycle(target: Point, prev: Point)
    requires IsUnitOffset(Sub(prev, target))
    ensures CycleIndex(Sub(prev, target)) < 8
    ensures Sub(prev, target) == Cycle[CycleIndex(Sub(prev, target))]
    ensures Sub(Clockwise(target, prev), target) == Cycle[Wrap(CycleIndex(Sub(prev, target)) + 1)]
  {
    UnitOffsetIsKey(Sub(prev, target));
    CycleIndexFinds(Sub(prev, target));
    CycleStep(CycleIndex(Sub(prev, target)));
    SubAddRoundTrip(ClockwiseOffset[Sub(prev, target)], target);
  }

  /**
   * Around any pixel, Clockwise visits the eight neighbours in the order
   * below, below-left, left, above-left, above, above-right, right,
   * below-right (y grows upwards in these names) and back to below.
   */
  lemma ClockwiseTurnsAround(p: Point)
    ensures Clockwise(p, Point(p.x, p.y - 1)) == Point(p.x - 1, p.y - 1)
    ensures Clockwise(p, Point(p.x - 1, p.y - 1)) == Point(p.x - 1, p.y)
    ensures Clockwise(p, Point(p.x - 1, p.y)) == Point(p.x - 1, p.y + 1)
    ensures Clockwise(p, Point(p.x - 1, p.y + 1)) == Point(p.x, p.y + 1)
    ensures Clockwise(p, Point(p.x, p.y + 1)) == Point(p.x + 1, p.y + 1)
    ensures Clockwise(p, Point(p.x + 1, p.y + 1)) == Point(p.x + 1, p.y)
    ensures Clockwise(p, Point(p.x + 1, p.y)) == Point(p.x + 1, p.y - 1)
    ensures Clockwise(p, Point(p.x + 1, p.y - 1)) == Point(p.x, p.y - 1)
  {
  }

  // ---------------------------------------------------------------------
  // The image
  // ---------------------------------------------------------------------

  // Length0 is the number of rows (y), Length1 the number of columns (x).
  predicate InBounds(image: array2<bool>, p: Point)
  {
    0 <= p.x < image.Length1 && 0 <= p.y < image.Length0
  }

  /** A cell inside the image whose pixel is set; cells off the grid count as background. */
  predicate IsForeground(image: array2<bool>, p: Point)
    reads image
  {
    InBounds(image, p) && image[p.y, p.x]
  }

  /** `p` is visited before `q` by the start-pixel scan. */
  predicate ScanBefore(p: Point, q: Point)
  {
    p.y > q.y || (p.y == q.y && p.x < q.x)
  }

  // ---------------------------------------------------------------------
  // Stage 1: the scan for the start pixel
  // ---------------------------------------------------------------------

  datatype Start = NotFound | Found(first: Point, firstPrev: Point)

  /**
   * The scan from cell (x, y) on: the rest of row y, then the rows below it in
   * index order. `firstPrev` is the cell visited just before `first`, or
   * (0, y - 1) when `first` opens its row.
   */
  ghost function Scan(image: array2<bool>, y: int, x: nat): (r: Start)
    reads image
    requires -1 <= y < image.Length0 && x <= image.Length1
    ensures r.Found? ==> IsForeground(image, r.first) && !ScanBefore(r.first, Point(x, y))
    ensures r.Found? ==>
      r.firstPrev == (if r.first.x > 0 then Point(r.first.x - 1, r.first.y) else Point(0, r.first.y - 1))
    ensures r.Found? ==> IsUnitOffset(Sub(r.firstPrev, r.first))
    decreases y + 1, image.Length1 - x
  {
    if y < 0 then NotFound
    else if x == image.Length1 then Scan(image, y - 1, 0)
    else if image[y, x] then Found(Point(x, y), if x > 0 then Point(x - 1, y) else Point(0, y - 1))
    else Scan(image, y, x + 1)
  }

  /**
   * Every cell the scan passes over is background: all cells from (x, y) on
   * when it finds nothing, and those before the start pixel when it finds one.
   */
  lemma {:induction false} ScanSkipsBackground(image: array2<bool>, y: int, x: nat)
    requires -1 <= y < image.Length0 && x <= image.Length1
    ensures Scan(image, y, x).NotFound? ==>
      forall p :: InBounds(image, p) && !ScanBefore(p, Point(x, y)) ==> !image[p.y, p.x]
    ensures Scan(image, y, x).Found? ==>
      forall p :: InBounds(image, p) && !ScanBefore(p, Point(x, y)) && ScanBefore(p, Scan(image, y, x).first)
        ==> !image[p.y, p.x]
    decreases y + 1, image.Length1 - x
  {
    if y >= 0 {
      if x == image.Length1 {
        ScanSkipsBackground(image, y - 1, 0);
      } else if !image[y, x] {
        ScanSkipsBackground(image, y, x + 1);
      }
    }
  }

  /** The scan over the whole image. */
  ghost function StartOf(image: array2<bool>): Start
    reads image
  {
    Scan(image, image.Length0 - 1, 0)
  }

  /** Stage 1 of Trace: the nested scan loops, left early at the first foreground cell. */
  method FindStart(image: array2<bool>) returns (s: Start)
    ensures s == StartOf(image)
  {
    var y := image.Length0 - 1;
    while y >= 0
      invariant -1 <= y < image.Length0
      invariant Scan(image, y, 0) == StartOf(image)
    {
      var firstPrev := Point(0, y - 1);
      var x := 0;
      while x < image.Length1
        invariant 0 <= x <= image.Length1
        invariant Scan(image, y, x) == StartOf(image)
        invariant firstPrev == if x > 0 then Point(x - 1, y) else Point(0, y - 1)
      {
        if image[y, x] {
          return Found(Point(x, y), firstPrev);
        }
        firstPrev := Point(x, y);
        x := x + 1;
      }
      y := y - 1;
    }
    return NotFound;
  }

  // ---------------------------------------------------------------------
  // Stage 2: the boundary walk
  // ---------------------------------------------------------------------

  /** The variables of the walk loop and the outline gathered so far. */
  datatype WalkState = WalkState(boundary: Point, prev: Point, curr: Point, outline: set<Point>)

  /** `prev` is a neighbour of `boundary` and `curr` the next one clockwise. */
  ghost predicate Aligned(s: WalkState)
  {
    IsUnitOffset(Sub(s.prev, s.boundary)) && s.curr == Clockwise(s.boundary, s.prev)
  }

  /** The current boundary pixel is in the outline, and the outline is all foreground. */
  ghost predicate Sound(image: array2<bool>, s: WalkState)
    reads image
  {
    s.boundary in s.outline && forall p :: p in s.outline ==> IsForeground(image, p)
  }

  /**
   * One iteration of the walk loop: accept `curr` as the next boundary pixel
   * and back-track to the old one, or rotate one position clockwise.
   */
  ghost function Step(image: array2<bool>, s: WalkState): (t: WalkState)
    reads image
    requires Aligned(s)
    ensures Aligned(t)
    ensures s.outline <= t.outline
  {
    if IsForeground(image, s.curr) then
      WalkState(s.curr, s.boundary, Clockwise(s.curr, s.boundary), s.outline + {s.curr})
    else
      WalkState(s.boundary, s.curr, Clockwise(s.boundary, s.curr), s.outline)
  }

  /** Both branches of the loop keep the outline within the foreground. */
  lemma StepKeepsSound(image: array2<bool>, s: WalkState)
    requires Aligned(s) && Sound(image, s)
    ensures Sound(image, Step(image, s))
  {
  }

  /** Jacob's stopping criterion. */
  ghost predicate Stopped(first: Point, firstPrev: Point, s: WalkState)
  {
    s.curr == first && s.prev == firstPrev
  }

  datatype Outcome = Traced(outline: set<Point>) | OutOfFuel

  /** The walk loop run from `s` with at most `fuel` iterations. */
  ghost function Walk(image: array2<bool>, first: Point, firstPrev: Point, s: WalkState, fuel: nat): (r: Outcome)
    reads image
    requires Aligned(s)
    decreases fuel
  {
    if Stopped(first, firstPrev, s) then Traced(s.outline)
    else if fuel == 0 then OutOfFuel
    else Walk(image, first, firstPrev, Step(image, s), fuel - 1)
  }

  /**
   * A walk started from a sound state returns an outline that keeps every
   * pixel gathered so far and is all foreground.
   */
  lemma {:induction false} WalkSound(image: array2<bool>, first: Point, firstPrev: Point, s: WalkState, fuel: nat)
    requires Aligned(s) && Sound(image, s)
    requires Walk(image, first, firstPrev, s, fuel).Traced?
    ensures s.outline <= Walk(image, first, firstPrev, s, fuel).outline
    ensures forall p :: p in Walk(image, first, firstPrev, s, fuel).outline ==> IsForeground(image, p)
    decreases fuel
  {
    if !Stopped(first, firstPrev, s) {
      StepKeepsSound(image, s);
      WalkSound(image, first, firstPrev, Step(image, s), fuel - 1);
    }
  }

  /** One iteration of the loop uses one unit of the budget. */
  lemma WalkAdvance(image: array2<bool>, first: Point, firstPrev: Point,
                    s: WalkState, n: nat, t: WalkState, m: nat)
    requires Aligned(s) && !Stopped(first, firstPrev, s)
    requires t == Step(image, s) && n == m + 1
    ensures Walk(image, first, firstPrev, s, n) == Walk(image, first, firstPrev, t, m)
  {
  }

  /** The state in which the walk loop is entered. */
  ghost function InitialState(first: Point, firstPrev: Point): WalkState
    requires IsUnitOffset(Sub(firstPrev, first))
  {
    WalkState(first, firstPrev, Clockwise(first, firstPrev), {first})
  }

  /** What Trace computes with at most `fuel` walk iterations. */
  ghost function TraceSpec(image: array2<bool>, fuel: nat): Outcome
    reads image
  {
    match StartOf(image)
    case NotFound => Traced({})
    case Found(first, firstPrev) => Walk(image, first, firstPrev, InitialState(first, firstPrev), fuel)
  }

  /**
   * The outline of the first region found by the scan. The image is only read,
   * and only at in-bounds indices.
   */
  method Trace(image: array2<bool>, fuel: nat) returns (r: Outcome)
    ensures r == TraceSpec(image, fuel)
    ensures r.Traced? ==> forall p :: p in r.outline ==> IsForeground(image, p)
  {
    var start := FindStart(image);
    if start.NotFound? {
      return Traced({});
    }
    var first, firstPrev := start.first, start.firstPrev;
    var prev := firstPrev;
    var outline := {first};
    var boundary := first;
    var curr := Clockwise(boundary, prev);
    var steps := 0;
    ghost var state := InitialState(first, firstPrev);
    ghost var remaining: nat := fuel;
    ghost var spec := TraceSpec(image, fuel);
    assert spec == Walk(image, first, firstPrev, state, remaining);
    while NotEq(curr, first) || NotEq(prev, firstPrev)
      invariant steps <= fuel && remaining == fuel - steps
      invariant state == WalkState(boundary, prev, curr, outline)
      invariant IsUnitOffset(Sub(prev, boundary)) && curr == Clockwise(boundary, prev)
      invariant Sound(image, state)
      invariant Walk(image, first, firstPrev, state, remaining) == spec
      decreases fuel - steps
    {
      if steps == fuel {
        return OutOfFuel;
      }
      ghost var before, budget := state, remaining;
      if curr.y >= 0 && curr.x >= 0 &&
         curr.y < image.Length0 && curr.x < image.Length1 &&
         image[curr.y, curr.x]
      {
        outline := outline + {curr};
        prev := boundary;
        boundary := curr;
        curr := Clockwise(boundary, prev);
      } else {
        prev := curr;
        curr := Clockwise(boundary, prev);
      }
      steps := steps + 1;
      state, remaining := Step(image, state), remaining - 1;
      WalkAdvance(image, first, firstPrev, before, budget, state, remaining);
      StepKeepsSound(image, before);
    }
    return Traced(outline);
  }
}
