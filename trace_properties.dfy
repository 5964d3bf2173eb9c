// Properties of the contour tracer, stated about TraceSpec, the function
// that ContourTrace.Trace is proved to compute.

module TraceProperties {
  import opened Points
  import opened ContourTrace

  // ---------------------------------------------------------------------
  // The start pixel
  // ---------------------------------------------------------------------

  /** The scan finds nothing exactly when the image has no foreground cell. */
  lemma StartNotFoundIff(image: array2<bool>)
    ensures StartOf(image).NotFound? <==> forall p :: !IsForeground(image, p)
  {
    var s := StartOf(image);
    ScanSkipsBackground(image, image.Length0 - 1, 0);
    if s.Found? {
      assert IsForeground(image, s.first);
    } else {
      forall p | InBounds(image, p)
        ensures !ScanBefore(p, Point(0, image.Length0 - 1))
      {
      }
    }
  }

  /**
   * The start pixel is the foreground cell the scan meets first: the one with
   * the largest row index and, in that row, the smallest column; and it is
   * entered from the cell to its left, or from (0, y - 1) at column 0.
   */
  lemma StartIsFirstForeground(image: array2<bool>)
    requires StartOf(image).Found?
    ensures IsForeground(image, StartOf(image).first)
    ensures forall p :: IsForeground(image, p) && p != StartOf(image).first ==> ScanBefore(StartOf(image).first, p)
    ensures forall p :: InBounds(image, p) && ScanBefore(p, StartOf(image).first) ==> !image[p.y, p.x]
    ensures StartOf(image).firstPrev == (if StartOf(image).first.x > 0
                                         then Point(StartOf(image).first.x - 1, StartOf(image).first.y)
                                         else Point(0, StartOf(image).first.y - 1))
    ensures IsUnitOffset(Sub(StartOf(image).firstPrev, StartOf(image).first))
  {
    var f := StartOf(image).first;
    ScanSkipsBackground(image, image.Length0 - 1, 0);
    forall p | InBounds(image, p)
      ensures !ScanBefore(p, Point(0, image.Length0 - 1))
    {
    }
    forall p | IsForeground(image, p) && p != f
      ensures ScanBefore(f, p)
    {
      assert !ScanBefore(p, f) by {
        assert !ScanBefore(p, Point(0, image.Length0 - 1));
      }
    }
  }

  // ---------------------------------------------------------------------
  // The outline
  // ---------------------------------------------------------------------

  /** The outline is empty exactly when the image has no foreground cell. */
  lemma TraceEmptyIff(image: array2<bool>, fuel: nat)
    ensures TraceSpec(image, fuel) == Traced({}) <==> forall p :: !IsForeground(image, p)
  {
    StartNotFoundIff(image);
    var s := StartOf(image);
    if s.Found? {
      var r := TraceSpec(image, fuel);
      if r.Traced? {
        WalkSound(image, s.first, s.firstPrev, InitialState(s.first, s.firstPrev), fuel);
        assert s.first in r.outline;
      }
    }
  }

  /** A finished trace holds the start pixel, and every pixel in it is a foreground cell of the image. */
  lemma TraceOutlineSound(image: array2<bool>, fuel: nat)
    requires TraceSpec(image, fuel).Traced?
    ensures forall p :: p in TraceSpec(image, fuel).outline ==> IsForeground(image, p)
    ensures StartOf(image).Found? ==> StartOf(image).first in TraceSpec(image, fuel).outline
  {
    var s := StartOf(image);
    if s.Found? {
      assert Sound(image, InitialState(s.first, s.firstPrev));
      WalkSound(image, s.first, s.firstPrev, InitialState(s.first, s.firstPrev), fuel);
    }
  }

  // ---------------------------------------------------------------------
  // The step budget
  // ---------------------------------------------------------------------

  lemma {:induction false} WalkFuelMonotone(image: array2<bool>, first: Point, firstPrev: Point,
                                            s: WalkState, n: nat, m: nat)
    requires Aligned(s) && n <= m
    requires Walk(image, first, firstPrev, s, n).Traced?
    ensures Walk(image, first, firstPrev, s, m) == Walk(image, first, firstPrev, s, n)
    decreases n
  {
    if !Stopped(first, firstPrev, s) {
      WalkFuelMonotone(image, first, firstPrev, Step(image, s), n - 1, m - 1);
    }
  }

  /** A budget large enough to finish gives the same outline as any larger budget. */
  lemma TraceFuelMonotone(image: array2<bool>, n: nat, m: nat)
    requires n <= m && TraceSpec(image, n).Traced?
    ensures TraceSpec(image, m) == TraceSpec(image, n)
  {
    var s := StartOf(image);
    if s.Found? {
      WalkFuelMonotone(image, s.first, s.firstPrev, InitialState(s.first, s.firstPrev), n, m);
    }
  }

  // ---------------------------------------------------------------------
  // Jacob's stopping criterion
  // ---------------------------------------------------------------------

  /** The walk loop's state after `k` iterations. */
  ghost function Iterate(image: array2<bool>, s: WalkState, k: nat): (t: WalkState)
    reads image
    requires Aligned(s)
    ensures Aligned(t)
    decreases k
  {
    if k == 0 then s else Iterate(image, Step(image, s), k - 1)
  }

  /**
   * The walk returns only from a state that re-enters the start pixel from
   * its original entry cell, and then returns that state's outline.
   */
  lemma {:induction false} WalkExitsOnlyAtEntry(image: array2<bool>, first: Point, firstPrev: Point,
                                                s: WalkState, fuel: nat)
    requires Aligned(s)
    requires Walk(image, first, firstPrev, s, fuel).Traced?
    ensures exists k :: (0 <= k <= fuel && Stopped(first, firstPrev, Iterate(image, s, k))
                         && Walk(image, first, firstPrev, s, fuel).outline == Iterate(image, s, k).outline)
    decreases fuel
  {
    if Stopped(first, firstPrev, s) {
      assert Iterate(image, s, 0) == s;
      assert Walk(image, first, firstPrev, s, fuel).outline == s.outline;
    } else {
      var t := Step(image, s);
      WalkExitsOnlyAtEntry(image, first, firstPrev, t, fuel - 1);
      var k :| 0 <= k <= fuel - 1 && Stopped(first, firstPrev, Iterate(image, t, k))
        && Walk(image, first, firstPrev, t, fuel - 1).outline == Iterate(image, t, k).outline;
      assert Iterate(image, s, k + 1) == Iterate(image, t, k);
      WalkAdvance(image, first, firstPrev, s, fuel, t, fuel - 1);
      assert 0 <= k + 1 <= fuel && Stopped(first, firstPrev, Iterate(image, s, k + 1));
    }
  }

  // ---------------------------------------------------------------------
  // Regions the walk never finishes
  // ---------------------------------------------------------------------

  /**
   * No foreground neighbour of the start pixel is also a neighbour of the
   * cell it was entered from, so no boundary pixel can rotate from that cell
   * onto the start pixel.
   */
  ghost predicate NoReentry(image: array2<bool>, first: Point, firstPrev: Point)
    reads image
  {
    forall b :: IsForeground(image, b) && IsUnitOffset(Sub(first, b)) ==> !IsUnitOffset(Sub(firstPrev, b))
  }

  lemma {:induction false} WalkWithoutReentryNeverStops(image: array2<bool>, first: Point, firstPrev: Point,
                                                        s: WalkState, fuel: nat)
    requires Aligned(s) && Sound(image, s) && NoReentry(image, first, firstPrev)
    ensures Walk(image, first, firstPrev, s, fuel) == OutOfFuel
    decreases fuel
  {
    assert !Stopped(first, firstPrev, s) by {
      assert IsForeground(image, s.boundary);
      assert IsUnitOffset(Sub(s.curr, s.boundary));
    }
    if fuel > 0 {
      StepKeepsSound(image, s);
      WalkWithoutReentryNeverStops(image, first, firstPrev, Step(image, s), fuel - 1);
    }
  }

  /** When the start pixel cannot be re-entered from its entry cell, no step budget is enough. */
  lemma NoReentryNeverFinishes(image: array2<bool>, fuel: nat)
    requires StartOf(image).Found? && NoReentry(image, StartOf(image).first, StartOf(image).firstPrev)
    ensures TraceSpec(image, fuel) == OutOfFuel
  {
    var s := StartOf(image);
    WalkWithoutReentryNeverStops(image, s.first, s.firstPrev, InitialState(s.first, s.firstPrev), fuel);
  }

  /** No Moore neighbour of `p` is a foreground cell. */
  ghost predicate Isolated(image: array2<bool>, p: Point)
    reads image
  {
    forall q :: IsUnitOffset(Sub(q, p)) ==> !IsForeground(image, q)
  }

  /**
   * When the start pixel has no foreground neighbour, `boundary` never leaves
   * it and the loop runs forever.
   */
  lemma IsolatedStartNeverFinishes(image: array2<bool>, fuel: nat)
    requires StartOf(image).Found? && Isolated(image, StartOf(image).first)
    ensures TraceSpec(image, fuel) == OutOfFuel
  {
    NoReentryNeverFinishes(image, fuel);
  }

  /** In particular an image with a single foreground pixel is never traced. */
  lemma SinglePixelNeverFinishes(image: array2<bool>, p: Point, fuel: nat)
    requires IsForeground(image, p)
    requires forall q :: IsForeground(image, q) ==> q == p
    ensures TraceSpec(image, fuel) == OutOfFuel
  {
    StartNotFoundIff(image);
    var s := StartOf(image);
    assert s.first == p;
    forall q | IsUnitOffset(Sub(q, p))
      ensures !IsForeground(image, q)
    {
      assert q != p;
    }
    IsolatedStartNeverFinishes(image, fuel);
  }

  /**
   * A start pixel off column 0 is entered from the cell to its left. When
   * the two cells below and below-left of it are background, the walk never
   * stops: every other neighbour of that entry cell is passed over by the
   * scan. A horizontal run of pixels with nothing beneath it is one such
   * region.
   */
  lemma EnteredFromLeftNeverFinishes(image: array2<bool>, fuel: nat)
    requires StartOf(image).Found? && StartOf(image).first.x > 0
    requires !IsForeground(image, Point(StartOf(image).first.x - 1, StartOf(image).first.y - 1))
    requires !IsForeground(image, Point(StartOf(image).first.x, StartOf(image).first.y - 1))
    ensures TraceSpec(image, fuel) == OutOfFuel
  {
    var s := StartOf(image);
    StartIsFirstForeground(image);
    forall b | IsForeground(image, b)
      ensures b == s.first || ScanBefore(s.first, b)
    {
    }
    NoReentryNeverFinishes(image, fuel);
  }

  // ---------------------------------------------------------------------
  // A region the walk does finish
  // ---------------------------------------------------------------------

  /** The pixel p and its right neighbour are foreground, and none of their other neighbours is. */
  ghost predicate IsolatedPair(image: array2<bool>, p: Point)
    reads image
  {
    && IsForeground(image, p) && IsForeground(image, Point(p.x + 1, p.y))
    && (forall c :: IsUnitOffset(Sub(c, p)) && c != Point(p.x + 1, p.y) ==> !IsForeground(image, c))
    && (forall c :: IsUnitOffset(Sub(c, Point(p.x + 1, p.y))) && c != p ==> !IsForeground(image, c))
  }

  /** Round p, entered from below: five background neighbours, then its right neighbour is accepted. */
  lemma PairWalkRoundLeft(image: array2<bool>, p: Point, n: nat, m: nat)
    requires IsolatedPair(image, p) && n == m + 6
    ensures IsUnitOffset(Sub(Point(p.x, p.y - 1), p))
    ensures Aligned(WalkState(Point(p.x + 1, p.y), p, Point(p.x, p.y + 1), {p, Point(p.x + 1, p.y)}))
    ensures Walk(image, p, Point(p.x, p.y - 1), InitialState(p, Point(p.x, p.y - 1)), n)
         == Walk(image, p, Point(p.x, p.y - 1), WalkState(Point(p.x + 1, p.y), p, Point(p.x, p.y + 1), {p, Point(p.x + 1, p.y)}), m)
  {
    var q, e := Point(p.x + 1, p.y), Point(p.x, p.y - 1);
    var o, pq := {p}, {p, q};
    ClockwiseTurnsAround(p);
    ClockwiseTurnsAround(q);
    assert p == Point(q.x - 1, q.y);
    var s0 := InitialState(p, e);
    assert s0 == WalkState(p, e, Point(p.x - 1, p.y - 1), o);
    var s1 := Step(image, s0);
    assert s1 == WalkState(p, Point(p.x - 1, p.y - 1), Point(p.x - 1, p.y), o);
    var s2 := Step(image, s1);
    assert s2 == WalkState(p, Point(p.x - 1, p.y), Point(p.x - 1, p.y + 1), o);
    var s3 := Step(image, s2);
    assert s3 == WalkState(p, Point(p.x - 1, p.y + 1), Point(p.x, p.y + 1), o);
    var s4 := Step(image, s3);
    assert s4 == WalkState(p, Point(p.x, p.y + 1), Point(p.x + 1, p.y + 1), o);
    var s5 := Step(image, s4);
    assert s5 == WalkState(p, Point(p.x + 1, p.y + 1), q, o);
    var s6 := Step(image, s5);
    assert s6 == WalkState(q, p, Point(p.x, p.y + 1), pq);
    var f6: nat := m;
    var f5: nat := f6 + 1;
    var f4: nat := f5 + 1;
    var f3: nat := f4 + 1;
    var f2: nat := f3 + 1;
    var f1: nat := f2 + 1;
    var f0: nat := f1 + 1;
    WalkAdvance(image, p, e, s5, f5, s6, f6);
    WalkAdvance(image, p, e, s4, f4, s5, f5);
    WalkAdvance(image, p, e, s3, f3, s4, f4);
    WalkAdvance(image, p, e, s2, f2, s3, f3);
    WalkAdvance(image, p, e, s1, f1, s2, f2);
    WalkAdvance(image, p, e, s0, f0, s1, f1);
  }

  /** Round p's right neighbour q, entered from p: seven background neighbours, then p is re-entered from below. */
  lemma PairWalkRoundRight(image: array2<bool>, p: Point, n: nat, m: nat)
    requires IsolatedPair(image, p) && n == m + 7
    requires Aligned(WalkState(Point(p.x + 1, p.y), p, Point(p.x, p.y + 1), {p, Point(p.x + 1, p.y)}))
    ensures Walk(image, p, Point(p.x, p.y - 1), WalkState(Point(p.x + 1, p.y), p, Point(p.x, p.y + 1), {p, Point(p.x + 1, p.y)}), n)
         == Traced({p, Point(p.x + 1, p.y)})
  {
    var q, e := Point(p.x + 1, p.y), Point(p.x, p.y - 1);
    var pq := {p, q};
    ClockwiseTurnsAround(q);
    var s6 := WalkState(q, p, Point(p.x, p.y + 1), pq);
    var s7 := Step(image, s6);
    assert s7 == WalkState(q, Point(p.x, p.y + 1), Point(p.x + 1, p.y + 1), pq);
    var s8 := Step(image, s7);
    assert s8 == WalkState(q, Point(p.x + 1, p.y + 1), Point(p.x + 2, p.y + 1), pq);
    var s9 := Step(image, s8);
    assert s9 == WalkState(q, Point(p.x + 2, p.y + 1), Point(p.x + 2, p.y), pq);
    var s10 := Step(image, s9);
    assert s10 == WalkState(q, Point(p.x + 2, p.y), Point(p.x + 2, p.y - 1), pq);
    var s11 := Step(image, s10);
    assert s11 == WalkState(q, Point(p.x + 2, p.y - 1), Point(p.x + 1, p.y - 1), pq);
    var s12 := Step(image, s11);
    assert s12 == WalkState(q, Point(p.x + 1, p.y - 1), e, pq);
    var s13 := Step(image, s12);
    assert s13 == WalkState(q, e, p, pq);
    var f13: nat := m;
    var f12: nat := f13 + 1;
    var f11: nat := f12 + 1;
    var f10: nat := f11 + 1;
    var f9: nat := f10 + 1;
    var f8: nat := f9 + 1;
    var f7: nat := f8 + 1;
    var f6: nat := f7 + 1;
    WalkAdvance(image, p, e, s12, f12, s13, f13);
    WalkAdvance(image, p, e, s11, f11, s12, f12);
    WalkAdvance(image, p, e, s10, f10, s11, f11);
    WalkAdvance(image, p, e, s9, f9, s10, f10);
    WalkAdvance(image, p, e, s8, f8, s9, f9);
    WalkAdvance(image, p, e, s7, f7, s8, f8);
    WalkAdvance(image, p, e, s6, f6, s7, f7);
  }

  /**
   * A horizontal pair of foreground pixels with no other foreground
   * neighbour, entered at the left one from the cell below it: the walk goes
   * round both and stops after 13 iterations, re-entering it from below.
   */
  lemma IsolatedPairWalk(image: array2<bool>, p: Point, fuel: nat)
    requires IsolatedPair(image, p) && fuel >= 13
    ensures IsUnitOffset(Sub(Point(p.x, p.y - 1), p))
    ensures Walk(image, p, Point(p.x, p.y - 1), InitialState(p, Point(p.x, p.y - 1)), fuel)
         == Traced({p, Point(p.x + 1, p.y)})
  {
    PairWalkRoundLeft(image, p, fuel, fuel - 6);
    PairWalkRoundRight(image, p, fuel - 6, fuel - 13);
  }

  /**
   * A start pixel in column 0 is entered from the cell below it. When it and
   * its right neighbour form an isolated pair, a budget of 13 iterations
   * traces both.
   */
  lemma IsolatedPairInFirstColumnTraced(image: array2<bool>, fuel: nat)
    requires StartOf(image).Found? && StartOf(image).first.x == 0
    requires IsolatedPair(image, StartOf(image).first) && fuel >= 13
    ensures TraceSpec(image, fuel) == Traced({StartOf(image).first, Point(1, StartOf(image).first.y)})
  {
    var p := StartOf(image).first;
    assert StartOf(image).firstPrev == Point(p.x, p.y - 1);
    assert Point(p.x + 1, p.y) == Point(1, p.y);
    IsolatedPairWalk(image, p, fuel);
  }
}
