/** Clipping of line segments to the axis box, as in the plotting of a line series.  Coordinates
    are reals. */
module FlotClips {

  datatype Point = Point(x: real, y: real)

  /** The visible range of the axes. */
  datatype Box = Box(xmin: real, xmax: real, ymin: real, ymax: real) {
    predicate Proper() {
      xmin <= xmax && ymin <= ymax
    }

    predicate Contains(p: Point) {
      xmin <= p.x <= xmax && ymin <= p.y <= ymax
    }
  }

  /** One side of the box, as a half-plane. */
  datatype Side = XMin(bound: real) | XMax(bound: real) | YMin(bound: real) | YMax(bound: real) {
    /** How far inside the half-plane p is; negative outside. */
    function Depth(p: Point): real {
      match this
      case XMin(b) => p.x - b
      case XMax(b) => b - p.x
      case YMin(b) => p.y - b
      case YMax(b) => b - p.y
    }
  }

  /** The number at fraction t of the way from u to v. */
  function Mix(u: real, v: real, t: real): real {
    u + t * (v - u)
  }

  /** The point at fraction t of the way from a to b. */
  function At(a: Point, b: Point, t: real): Point {
    Point(Mix(a.x, b.x, t), Mix(a.y, b.y, t))
  }

  ghost predicate OnSegment(p: Point, a: Point, b: Point) {
    exists t :: 0.0 <= t <= 1.0 && p == At(a, b, t)
  }

  /** The step from a' to b' is k >= 0 times that from a to b. */
  ghost predicate SameDirection(a: Point, b: Point, a': Point, b': Point) {
    exists k: real :: k >= 0.0 && IsMultiple(a, b, a', b', k)
  }

  predicate IsMultiple(a: Point, b: Point, a': Point, b': Point, k: real) {
    b'.x - a'.x == k * (b.x - a.x) && b'.y - a'.y == k * (b.y - a.y)
  }

  /** Inside all the half-planes. */
  ghost predicate Inside(p: Point, sides: seq<Side>) {
    forall i :: 0 <= i < |sides| ==> sides[i].Depth(p) >= 0.0
  }

  /** From a' to b' is exactly the part of the segment from a to b that is inside. */
  ghost predicate IsPiece(a: Point, b: Point, sides: seq<Side>, a': Point, b': Point) {
    && SameDirection(a, b, a', b')
    && forall p :: OnSegment(p, a', b') <==> OnSegment(p, a, b) && Inside(p, sides)
  }

  ghost predicate Misses(a: Point, b: Point, sides: seq<Side>) {
    forall p :: OnSegment(p, a, b) ==> !Inside(p, sides)
  }

  // ----- products of reals

  lemma MulNonneg(x: real, y: real)
    requires x >= 0.0 && y >= 0.0
    ensures x * y >= 0.0
  {
  }

  lemma MulPositive(x: real, y: real)
    requires x > 0.0 && y > 0.0
    ensures x * y > 0.0
  {
  }

  lemma Divide(x: real, y: real)
    requires y != 0.0
    ensures x / y * y == x
  {
  }

  lemma Fraction(x: real, y: real)
    requires 0.0 <= x <= y && 0.0 < y
    ensures 0.0 <= x / y <= 1.0
    ensures x > 0.0 ==> x / y > 0.0
  {
  }

  lemma MixEnds(u: real, v: real)
    ensures Mix(u, v, 0.0) == u && Mix(u, v, 1.0) == v
  {
  }

  /** A fraction of what is left after the fraction s. */
  lemma MixMix(u: real, v: real, s: real, t: real)
    ensures Mix(Mix(u, v, s), v, t) == Mix(u, v, Mix(s, 1.0, t))
  {
  }

  lemma MixBack(u: real, v: real, t: real)
    ensures Mix(v, u, 1.0 - t) == Mix(u, v, t)
  {
  }

  lemma MixStep(u: real, v: real, s: real)
    ensures v - Mix(u, v, s) == (1.0 - s) * (v - u)
    ensures Mix(v, u, s) - u == (1.0 - s) * (v - u)
  {
  }

  lemma MixAffine(u: real, v: real, t: real, bound: real)
    ensures Mix(u - bound, v - bound, t) == Mix(u, v, t) - bound
    ensures Mix(bound - u, bound - v, t) == bound - Mix(u, v, t)
  {
  }

  /** Between two numbers. */
  lemma MixBounds(u: real, v: real, t: real, lo: real, hi: real)
    requires lo <= u <= hi && lo <= v <= hi && 0.0 <= t <= 1.0
    ensures lo <= Mix(u, v, t) <= hi
  {
    MulNonneg(1.0 - t, u - lo);
    MulNonneg(t, v - lo);
    MulNonneg(1.0 - t, hi - u);
    MulNonneg(t, hi - v);
  }

  lemma MixNegative(u: real, v: real, t: real)
    requires u < 0.0 && v < 0.0 && 0.0 <= t <= 1.0
    ensures Mix(u, v, t) < 0.0
  {
    if t > 0.0 {
      MulNonneg(1.0 - t, -u);
      MulPositive(t, -v);
    }
  }

  lemma MixMonotone(u: real, v: real, s: real, t: real)
    requires u < v
    ensures s < t <==> Mix(u, v, s) < Mix(u, v, t)
  {
    if s < t {
      MulPositive(t - s, v - u);
    } else if t < s {
      MulPositive(s - t, v - u);
    }
  }

  /** The fraction at which zero is crossed. */
  lemma MixZero(u: real, v: real, s: real)
    requires u != v && s == u / (u - v)
    ensures Mix(u, v, s) == 0.0
  {
    Divide(u, u - v);
  }

  /** u as a fraction of what is left after s. */
  lemma Remaining(s: real, u: real) returns (t: real)
    requires s <= u <= 1.0
    ensures 0.0 <= t <= 1.0 && Mix(s, 1.0, t) == u
  {
    if s == 1.0 {
      t := 0.0;
    } else {
      t := (u - s) / (1.0 - s);
      Fraction(u - s, 1.0 - s);
      Divide(u - s, 1.0 - s);
    }
  }

  // ----- one half-plane

  /** The fraction of the way at which the segment crosses the border. */
  function Crossing(a: Point, b: Point, side: Side): real
    requires side.Depth(a) != side.Depth(b)
  {
    side.Depth(a) / (side.Depth(a) - side.Depth(b))
  }

  lemma DepthIsAffine(a: Point, b: Point, side: Side, t: real)
    ensures side.Depth(At(a, b, t)) == Mix(side.Depth(a), side.Depth(b), t)
  {
    hide Mix;
    match side
    case XMin(c) => MixAffine(a.x, b.x, t, c);
    case XMax(c) => MixAffine(a.x, b.x, t, c);
    case YMin(c) => MixAffine(a.y, b.y, t, c);
    case YMax(c) => MixAffine(a.y, b.y, t, c);
  }

  lemma CrossingBounds(a: Point, b: Point, side: Side)
    requires side.Depth(a) < 0.0 <= side.Depth(b)
    ensures 0.0 < Crossing(a, b, side) <= 1.0
    ensures Mix(side.Depth(a), side.Depth(b), Crossing(a, b, side)) == 0.0
  {
    hide Mix, Side.Depth;
    var da, db := side.Depth(a), side.Depth(b);
    MixZero(da, db, Crossing(a, b, side));
    NegativeFraction(da, db);
  }

  lemma NegativeFraction(u: real, v: real)
    requires u < 0.0 <= v
    ensures 0.0 < u / (u - v) <= 1.0
  {
    Fraction(-u, v - u);
    Divide(-u, v - u);
    Quotient(u, u - v, -u / (v - u));
  }

  lemma Quotient(x: real, y: real, q: real)
    requires y != 0.0 && q * y == x
    ensures x / y == q
  {
  }

  lemma AtAt(a: Point, b: Point, s: real, t: real)
    ensures At(At(a, b, s), b, t) == At(a, b, Mix(s, 1.0, t))
  {
    hide Mix;
    MixMix(a.x, b.x, s, t);
    MixMix(a.y, b.y, s, t);
  }

  /** A point after the crossing is inside. */
  lemma AfterCrossing(a: Point, b: Point, side: Side, s: real, t: real)
    requires side.Depth(a) < 0.0 <= side.Depth(b) && s == Crossing(a, b, side) && 0.0 <= t <= 1.0
    ensures 0.0 <= Mix(s, 1.0, t) <= 1.0
    ensures At(At(a, b, s), b, t) == At(a, b, Mix(s, 1.0, t)) && side.Depth(At(a, b, Mix(s, 1.0, t))) >= 0.0
  {
    hide Mix, At, Side.Depth, Crossing;
    var da, db := side.Depth(a), side.Depth(b);
    CrossingBounds(a, b, side);
    MixBounds(s, 1.0, t, 0.0, 1.0);
    AtAt(a, b, s, t);
    DepthIsAffine(a, b, side, Mix(s, 1.0, t));
    MixMix(da, db, s, t);
    MixBounds(0.0, db, t, 0.0, db);
  }

  /** A point inside is after the crossing. */
  lemma BeforeCrossing(a: Point, b: Point, side: Side, s: real, u: real) returns (t: real)
    requires side.Depth(a) < 0.0 <= side.Depth(b) && s == Crossing(a, b, side)
    requires 0.0 <= u <= 1.0 && side.Depth(At(a, b, u)) >= 0.0
    ensures 0.0 <= t <= 1.0 && At(a, b, u) == At(At(a, b, s), b, t)
  {
    hide Mix, At, Side.Depth, Crossing;
    CrossingBounds(a, b, side);
    DepthIsAffine(a, b, side, u);
    MixMonotone(side.Depth(a), side.Depth(b), u, s);
    t := Remaining(s, u);
    AtAt(a, b, s, t);
  }

  lemma CutStartPoint(a: Point, b: Point, side: Side, p: Point)
    requires side.Depth(a) < 0.0 <= side.Depth(b)
    ensures OnSegment(p, At(a, b, Crossing(a, b, side)), b) <==> OnSegment(p, a, b) && side.Depth(p) >= 0.0
  {
    hide Side.Depth, At, Crossing;
    var s := Crossing(a, b, side);
    if OnSegment(p, At(a, b, s), b) {
      var t :| 0.0 <= t <= 1.0 && p == At(At(a, b, s), b, t);
      AfterCrossing(a, b, side, s, t);
    }
    if OnSegment(p, a, b) && side.Depth(p) >= 0.0 {
      var u :| 0.0 <= u <= 1.0 && p == At(a, b, u);
      var t := BeforeCrossing(a, b, side, s, u);
    }
  }

  /** Cutting off the start of a segment that begins outside. */
  lemma CutStart(a: Point, b: Point, side: Side)
    requires side.Depth(a) < 0.0 <= side.Depth(b)
    ensures IsPiece(a, b, [side], At(a, b, Crossing(a, b, side)), b)
  {
    hide Side.Depth, OnSegment, Mix, Crossing;
    var s := Crossing(a, b, side);
    var a' := At(a, b, s);
    CrossingBounds(a, b, side);
    MixStep(a.x, b.x, s);
    MixStep(a.y, b.y, s);
    assert IsMultiple(a, b, a', b, 1.0 - s);
    forall p
      ensures OnSegment(p, a', b) <==> OnSegment(p, a, b) && Inside(p, [side])
    {
      CutStartPoint(a, b, side, p);
      assert Inside(p, [side]) <==> [side][0].Depth(p) >= 0.0;
    }
  }

  /** A segment read backwards. */
  lemma Backwards(p: Point, a: Point, b: Point)
    ensures OnSegment(p, a, b) <==> OnSegment(p, b, a)
  {
    hide Mix;
    if OnSegment(p, a, b) {
      var t :| 0.0 <= t <= 1.0 && p == At(a, b, t);
      MixBack(a.x, b.x, t);
      MixBack(a.y, b.y, t);
      assert p == At(b, a, 1.0 - t);
    }
    if OnSegment(p, b, a) {
      var t :| 0.0 <= t <= 1.0 && p == At(b, a, t);
      MixBack(b.x, a.x, t);
      MixBack(b.y, a.y, t);
      assert p == At(a, b, 1.0 - t);
    }
  }

  /** Cutting off the end of a segment that ends outside. */
  lemma CutEnd(a: Point, b: Point, side: Side)
    requires side.Depth(b) < 0.0 <= side.Depth(a)
    ensures IsPiece(a, b, [side], a, At(b, a, Crossing(b, a, side)))
  {
    hide Side.Depth, OnSegment, Mix, Crossing;
    var s := Crossing(b, a, side);
    var b' := At(b, a, s);
    CrossingBounds(b, a, side);
    MixStep(a.x, b.x, s);
    MixStep(a.y, b.y, s);
    assert IsMultiple(a, b, a, b', 1.0 - s);
    forall p
      ensures OnSegment(p, a, b') <==> OnSegment(p, a, b) && Inside(p, [side])
    {
      CutStartPoint(b, a, side, p);
      Backwards(p, a, b);
      Backwards(p, a, b');
      assert Inside(p, [side]) <==> [side][0].Depth(p) >= 0.0;
    }
  }

  lemma DepthBetween(a: Point, b: Point, side: Side, p: Point)
    requires OnSegment(p, a, b)
    ensures side.Depth(a) >= 0.0 && side.Depth(b) >= 0.0 ==> side.Depth(p) >= 0.0
    ensures side.Depth(a) < 0.0 && side.Depth(b) < 0.0 ==> side.Depth(p) < 0.0
  {
    hide At, Side.Depth, Mix;
    var t :| 0.0 <= t <= 1.0 && p == At(a, b, t);
    var da, db := side.Depth(a), side.Depth(b);
    DepthIsAffine(a, b, side, t);
    if da >= 0.0 && db >= 0.0 {
      MixBounds(da, db, t, 0.0, if da < db then db else da);
    } else if da < 0.0 && db < 0.0 {
      MixNegative(da, db, t);
    }
  }

  // ----- stages of the clipping

  lemma PieceOfPiece(a: Point, b: Point, sides: seq<Side>, a': Point, b': Point, side: Side, a'': Point, b'': Point)
    requires IsPiece(a, b, sides, a', b') && IsPiece(a', b', [side], a'', b'')
    ensures IsPiece(a, b, sides + [side], a'', b'')
  {
    hide OnSegment, Side.Depth;
    var k :| k >= 0.0 && IsMultiple(a, b, a', b', k);
    var m :| m >= 0.0 && IsMultiple(a', b', a'', b'', m);
    MulNonneg(m, k);
    assert IsMultiple(a, b, a'', b'', m * k);
    forall p
      ensures OnSegment(p, a'', b'') <==> OnSegment(p, a, b) && Inside(p, sides + [side])
    {
      InsideMore(p, sides, side);
    }
  }

  lemma InsideMore(p: Point, sides: seq<Side>, side: Side)
    ensures Inside(p, sides + [side]) <==> Inside(p, sides) && Inside(p, [side])
    ensures Inside(p, [side]) <==> side.Depth(p) >= 0.0
    ensures Inside(p, [])
  {
    hide Side.Depth;
    var more := sides + [side];
    assert forall i :: 0 <= i < |sides| ==> more[i] == sides[i];
    assert more[|sides|] == side;
    if Inside(p, more) {
      assert forall i :: 0 <= i < |sides| ==> more[i].Depth(p) >= 0.0;
    }
    assert [side][0] == side;
  }

  /** Nothing to cut. */
  lemma KeepAll(a: Point, b: Point, side: Side)
    requires side.Depth(a) >= 0.0 && side.Depth(b) >= 0.0
    ensures IsPiece(a, b, [side], a, b)
  {
    hide OnSegment, Side.Depth;
    assert IsMultiple(a, b, a, b, 1.0);
    forall p
      ensures OnSegment(p, a, b) <==> OnSegment(p, a, b) && Inside(p, [side])
    {
      InsideMore(p, [], side);
      if OnSegment(p, a, b) {
        DepthBetween(a, b, side, p);
      }
    }
  }

  /** A piece wholly outside one side. */
  lemma MissesSide(a: Point, b: Point, sides: seq<Side>, a': Point, b': Point, side: Side)
    requires IsPiece(a, b, sides, a', b') && side.Depth(a') < 0.0 && side.Depth(b') < 0.0
    ensures Misses(a, b, sides + [side])
  {
    hide OnSegment, Side.Depth, SameDirection;
    forall p | OnSegment(p, a, b)
      ensures !Inside(p, sides + [side])
    {
      InsideMore(p, sides, side);
      if Inside(p, sides) {
        DepthBetween(a', b', side, p);
      }
    }
  }

  lemma WholeSegment(a: Point, b: Point)
    ensures IsPiece(a, b, [], a, b)
  {
    assert IsMultiple(a, b, a, b, 1.0);
  }

  /** Missing the part inside some sides is missing the part inside more. */
  lemma MissesMore(a: Point, b: Point, sides: seq<Side>, side: Side)
    requires Misses(a, b, sides)
    ensures Misses(a, b, sides + [side])
  {
    hide OnSegment, Side.Depth;
    forall p | OnSegment(p, a, b)
      ensures !Inside(p, sides + [side])
    {
      InsideMore(p, sides, side);
    }
  }

  /** What is left of a segment after cutting at one side. */
  datatype Piece = Hidden | Shown(from: Point, to: Point)

  /** The rule of one stage, by how deep the two ends are. */
  function Cut(a: Point, b: Point, side: Side): Piece {
    var da, db := side.Depth(a), side.Depth(b);
    if da <= db && da < 0.0 then
      if db < 0.0 then Hidden else Shown(At(a, b, Crossing(a, b, side)), b)
    else if db <= da && db < 0.0 then
      if da < 0.0 then Hidden else Shown(a, At(b, a, Crossing(b, a, side)))
    else Shown(a, b)
  }

  lemma CutCases(a: Point, b: Point, side: Side)
    ensures var da, db := side.Depth(a), side.Depth(b);
            && (da < 0.0 && db < 0.0 ==> Cut(a, b, side) == Hidden)
            && (da < 0.0 <= db ==> Cut(a, b, side) == Shown(At(a, b, Crossing(a, b, side)), b))
            && (db < 0.0 <= da ==> Cut(a, b, side) == Shown(a, At(b, a, Crossing(b, a, side))))
            && (da >= 0.0 && db >= 0.0 ==> Cut(a, b, side) == Shown(a, b))
  {
    hide At, Crossing, Side.Depth;
  }

  /** r is exactly the part of the segment inside `sides`. */
  ghost predicate IsPart(a: Point, b: Point, sides: seq<Side>, r: Piece) {
    match r
    case Hidden => Misses(a, b, sides)
    case Shown(a', b') => IsPiece(a, b, sides, a', b')
  }

  /** One more stage. */
  lemma CutIsPart(a: Point, b: Point, sides: seq<Side>, a': Point, b': Point, side: Side)
    requires IsPiece(a, b, sides, a', b')
    ensures IsPart(a, b, sides + [side], Cut(a', b', side))
  {
    hide IsPiece, Misses, At, Crossing, Side.Depth;
    var da, db := side.Depth(a'), side.Depth(b');
    match Cut(a', b', side)
    case Hidden =>
      MissesSide(a, b, sides, a', b', side);
    case Shown(a'', b'') =>
      if da < 0.0 {
        CutStart(a', b', side);
      } else if db < 0.0 {
        CutEnd(a', b', side);
      } else {
        KeepAll(a', b', side);
      }
      PieceOfPiece(a, b, sides, a', b', side, a'', b'');
  }

  function Sides(box: Box): seq<Side> {
    [YMin(box.ymin), YMax(box.ymax), XMin(box.xmin), XMax(box.xmax)]
  }

  lemma InsideSides(p: Point, box: Box)
    ensures Inside(p, Sides(box)) <==> box.Contains(p)
  {
    var s := Sides(box);
    if Inside(p, s) {
      assert s[0].Depth(p) >= 0.0 && s[1].Depth(p) >= 0.0 && s[2].Depth(p) >= 0.0 && s[3].Depth(p) >= 0.0;
    }
  }

  /** From a' to b' is exactly the part of the segment from a to b in the box, in the same
      direction. */
  ghost predicate IsVisiblePart(a: Point, b: Point, box: Box, a': Point, b': Point) {
    && SameDirection(a, b, a', b')
    && forall p :: OnSegment(p, a', b') <==> OnSegment(p, a, b) && box.Contains(p)
  }

  ghost predicate IsInvisible(a: Point, b: Point, box: Box) {
    forall p :: OnSegment(p, a, b) ==> !box.Contains(p)
  }

  lemma VisiblePart(a: Point, b: Point, box: Box, r: Piece)
    requires IsPart(a, b, Sides(box), r)
    ensures r.Shown? ==> IsVisiblePart(a, b, box, r.from, r.to)
    ensures r.Hidden? ==> IsInvisible(a, b, box)
  {
    hide Inside, OnSegment, Sides;
    forall p
      ensures Inside(p, Sides(box)) <==> box.Contains(p)
    {
      InsideSides(p, box);
    }
  }

  // ----- the formula of the code

  /** The other coordinate, going from v1 to v2, where the one from u1 to u2 equals the bound. */
  function Interpolated(bound: real, u1: real, u2: real, v1: real, v2: real): real
    requires u1 != u2
  {
    (bound - u1) / (u2 - u1) * (v2 - v1) + v1
  }

  lemma InterpolatedAt(bound: real, u1: real, u2: real, v1: real, v2: real, s: real)
    requires u1 != u2 && Mix(u1, u2, s) == bound
    ensures Interpolated(bound, u1, u2, v1, v2) == Mix(v1, v2, s)
  {
    Quotient(bound - u1, u2 - u1, s);
  }

  /** The new point when cutting at a bound, from either end. */
  lemma CrossPoint(a: Point, b: Point, side: Side)
    requires side.Depth(a) != side.Depth(b)
    ensures At(a, b, Crossing(a, b, side)) == At(b, a, Crossing(b, a, side))
    ensures side.Depth(At(a, b, Crossing(a, b, side))) == 0.0
  {
    hide Mix, Side.Depth;
    var da, db, s := side.Depth(a), side.Depth(b), Crossing(a, b, side);
    MixZero(da, db, s);
    MixZero(db, da, Crossing(b, a, side));
    MixBack(da, db, s);
    DepthIsAffine(a, b, side, s);
    SameFraction(db, da, 1.0 - s, Crossing(b, a, side));
    MixBack(a.x, b.x, s);
    MixBack(a.y, b.y, s);
  }

  lemma SameFraction(u: real, v: real, s: real, t: real)
    requires u != v && Mix(u, v, s) == Mix(u, v, t)
    ensures s == t
  {
    if u < v {
      MixMonotone(u, v, s, t);
      MixMonotone(u, v, t, s);
    } else {
      MixMonotone(-u, -v, s, t);
      MixMonotone(-u, -v, t, s);
      MixOpposite(u, v, s);
      MixOpposite(u, v, t);
    }
  }

  lemma MixOpposite(u: real, v: real, t: real)
    ensures Mix(-u, -v, t) == -Mix(u, v, t)
  {
  }

  lemma CutAtY(a: Point, b: Point, bound: real, side: Side)
    requires a.y != b.y && (side == YMin(bound) || side == YMax(bound))
    ensures var p := Point(Interpolated(bound, a.y, b.y, a.x, b.x), bound);
            p == At(a, b, Crossing(a, b, side)) && p == At(b, a, Crossing(b, a, side))
  {
    hide Interpolated, Mix, Crossing;
    CrossPoint(a, b, side);
    InterpolatedAt(bound, a.y, b.y, a.x, b.x, Crossing(a, b, side));
  }

  lemma CutAtX(a: Point, b: Point, bound: real, side: Side)
    requires a.x != b.x && (side == XMin(bound) || side == XMax(bound))
    ensures var p := Point(bound, Interpolated(bound, a.x, b.x, a.y, b.y));
            p == At(a, b, Crossing(a, b, side)) && p == At(b, a, Crossing(b, a, side))
  {
    hide Interpolated, Mix, Crossing;
    CrossPoint(a, b, side);
    InterpolatedAt(bound, a.x, b.x, a.y, b.y, Crossing(a, b, side));
  }

  // ----- the code: four stages, each of which may find the segment invisible

  /** The outcome of a stage; an invisible segment makes the loop go on to the next one. */
  function Result(visible: bool, x1: real, y1: real, x2: real, y2: real): Piece {
    if visible then Shown(Point(x1, y1), Point(x2, y2)) else Hidden
  }

  /** Clip with ymin. */
  method ClipYMin(x1: real, y1: real, x2: real, y2: real, min: real)
    returns (visible: bool, x1': real, y1': real, x2': real, y2': real)
    ensures Cut(Point(x1, y1), Point(x2, y2), YMin(min)) == Result(visible, x1', y1', x2', y2')
  {
    hide At, Crossing, Interpolated, Cut;
    visible, x1', y1', x2', y2' := true, x1, y1, x2, y2;
    ghost var a, b := Point(x1, y1), Point(x2, y2);
    CutCases(a, b, YMin(min));
    if y1 <= y2 && y1 < min {
      if y2 < min {
        visible := false;
        return;
      }
      x1' := Interpolated(min, y1, y2, x1, x2);
      y1' := min;
      CutAtY(a, b, min, YMin(min));
    } else if y2 <= y1 && y2 < min {
      if y1 < min {
        visible := false;
        return;
      }
      x2' := Interpolated(min, y1, y2, x1, x2);
      y2' := min;
      CutAtY(a, b, min, YMin(min));
    }
  }

  /** Clip with ymax. */
  method ClipYMax(x1: real, y1: real, x2: real, y2: real, max: real)
    returns (visible: bool, x1': real, y1': real, x2': real, y2': real)
    ensures Cut(Point(x1, y1), Point(x2, y2), YMax(max)) == Result(visible, x1', y1', x2', y2')
  {
    hide At, Crossing, Interpolated, Cut;
    visible, x1', y1', x2', y2' := true, x1, y1, x2, y2;
    ghost var a, b := Point(x1, y1), Point(x2, y2);
    CutCases(a, b, YMax(max));
    if y1 >= y2 && y1 > max {
      if y2 > max {
        visible := false;
        return;
      }
      x1' := Interpolated(max, y1, y2, x1, x2);
      y1' := max;
      CutAtY(a, b, max, YMax(max));
    } else if y2 >= y1 && y2 > max {
      if y1 > max {
        visible := false;
        return;
      }
      x2' := Interpolated(max, y1, y2, x1, x2);
      y2' := max;
      CutAtY(a, b, max, YMax(max));
    }
  }

  /** Clip with xmin. */
  method ClipXMin(x1: real, y1: real, x2: real, y2: real, min: real)
    returns (visible: bool, x1': real, y1': real, x2': real, y2': real)
    ensures Cut(Point(x1, y1), Point(x2, y2), XMin(min)) == Result(visible, x1', y1', x2', y2')
  {
    hide At, Crossing, Interpolated, Cut;
    visible, x1', y1', x2', y2' := true, x1, y1, x2, y2;
    ghost var a, b := Point(x1, y1), Point(x2, y2);
    CutCases(a, b, XMin(min));
    if x1 <= x2 && x1 < min {
      if x2 < min {
        visible := false;
        return;
      }
      y1' := Interpolated(min, x1, x2, y1, y2);
      x1' := min;
      CutAtX(a, b, min, XMin(min));
    } else if x2 <= x1 && x2 < min {
      if x1 < min {
        visible := false;
        return;
      }
      y2' := Interpolated(min, x1, x2, y1, y2);
      x2' := min;
      CutAtX(a, b, min, XMin(min));
    }
  }

  /** Clip with xmax. */
  method ClipXMax(x1: real, y1: real, x2: real, y2: real, max: real)
    returns (visible: bool, x1': real, y1': real, x2': real, y2': real)
    ensures Cut(Point(x1, y1), Point(x2, y2), XMax(max)) == Result(visible, x1', y1', x2', y2')
  {
    hide At, Crossing, Interpolated, Cut;
    visible, x1', y1', x2', y2' := true, x1, y1, x2, y2;
    ghost var a, b := Point(x1, y1), Point(x2, y2);
    CutCases(a, b, XMax(max));
    if x1 >= x2 && x1 > max {
      if x2 > max {
        visible := false;
        return;
      }
      y1' := Interpolated(max, x1, x2, y1, y2);
      x1' := max;
      CutAtX(a, b, max, XMax(max));
    } else if x2 >= x1 && x2 > max {
      if x1 > max {
        visible := false;
        return;
      }
      y2' := Interpolated(max, x1, x2, y1, y2);
      x2' := max;
      CutAtX(a, b, max, XMax(max));
    }
  }

  /** All four stages: the piece of the segment to draw, or nothing. */
  method ClipSegment(x1: real, y1: real, x2: real, y2: real, box: Box)
    returns (visible: bool, x1': real, y1': real, x2': real, y2': real)
    ensures if visible then IsVisiblePart(Point(x1, y1), Point(x2, y2), box, Point(x1', y1'), Point(x2', y2'))
            else IsInvisible(Point(x1, y1), Point(x2, y2), box)
  {
    hide IsPiece, Misses, IsVisiblePart, IsInvisible, Cut;
    ghost var a, b := Point(x1, y1), Point(x2, y2);
    ghost var s0, s1, s2, s3 := YMin(box.ymin), YMax(box.ymax), XMin(box.xmin), XMax(box.xmax);
    SidesAppended(box);
    WholeSegment(a, b);
    CutIsPart(a, b, [], a, b, s0);
    visible, x1', y1', x2', y2' := ClipYMin(x1, y1, x2, y2, box.ymin);
    if visible {
      CutIsPart(a, b, [] + [s0], Point(x1', y1'), Point(x2', y2'), s1);
      visible, x1', y1', x2', y2' := ClipYMax(x1', y1', x2', y2', box.ymax);
    } else {
      MissesMore(a, b, [] + [s0], s1);
    }
    if visible {
      CutIsPart(a, b, [] + [s0] + [s1], Point(x1', y1'), Point(x2', y2'), s2);
      visible, x1', y1', x2', y2' := ClipXMin(x1', y1', x2', y2', box.xmin);
    } else {
      MissesMore(a, b, [] + [s0] + [s1], s2);
    }
    if visible {
      CutIsPart(a, b, [] + [s0] + [s1] + [s2], Point(x1', y1'), Point(x2', y2'), s3);
      visible, x1', y1', x2', y2' := ClipXMax(x1', y1', x2', y2', box.xmax);
    } else {
      MissesMore(a, b, [] + [s0] + [s1] + [s2], s3);
    }
    VisiblePart(a, b, box, Result(visible, x1', y1', x2', y2'));
  }

  lemma SidesAppended(box: Box)
    ensures [] + [YMin(box.ymin)] + [YMax(box.ymax)] + [XMin(box.xmin)] + [XMax(box.xmax)] == Sides(box)
  {
  }

  // ----- plotting a line series

  /** A coordinate of the point array; Null is a gap (or lies outside the array). */
  datatype Coord = Null | Num(v: real)

  /** i is a multiple of ps. */
  ghost predicate Multiple(i: nat, ps: nat)
    requires ps > 0
  {
    i == 0 || (i >= ps && Multiple(i - ps, ps))
  }

  lemma {:induction false} MultipleGap(i: nat, n: nat, ps: nat)
    requires ps > 0 && Multiple(i, ps) && Multiple(n, ps) && i < n
    ensures i + ps <= n
  {
    if i > 0 {
      MultipleGap(i - ps, n - ps, ps);
    }
  }

  /** What point processing produces: whole points, each either null throughout or numbers. */
  ghost predicate WellFormed(points: seq<Coord>, ps: nat) {
    && ps >= 2 && Multiple(|points|, ps)
    && forall i, j {:trigger points[i + j], Multiple(i, ps)} ::
         0 <= i && Multiple(i, ps) && 0 <= j < ps && i + j < |points| ==> (points[i + j].Num? <==> points[i].Num?)
  }

  lemma PairOf(points: seq<Coord>, ps: nat, i: nat)
    requires WellFormed(points, ps) && Multiple(i, ps) && i < |points|
    ensures i + ps <= |points| && i + 1 < |points| && (points[i].Num? <==> points[i + 1].Num?)
    ensures ps >= 3 ==> (points[i].Num? <==> points[i + 2].Num?)
  {
    MultipleGap(i, |points|, ps);
    assert points[i + 1].Num? <==> points[i].Num?;
    if ps >= 3 {
      assert points[i + 2].Num? <==> points[i].Num?;
    }
  }

  datatype Command = MoveTo(p: Point) | LineTo(p: Point)

  /** Where the pen is after drawing commands: nowhere before the first. */
  datatype Pen = NoPen | PenAt(p: Point)

  function PenAfter(cmds: seq<Command>): Pen {
    if cmds == [] then NoPen else PenAt(cmds[|cmds| - 1].p)
  }

  /** The strokes that drawing commands make. */
  function Strokes(cmds: seq<Command>): seq<(Point, Point)> {
    if cmds == [] then []
    else
      var before, last := cmds[..|cmds| - 1], cmds[|cmds| - 1];
      if last.LineTo? && PenAfter(before).PenAt? then Strokes(before) + [(PenAfter(before).p, last.p)]
      else Strokes(before)
  }

  lemma StrokesStep(cmds: seq<Command>, c: Command)
    ensures PenAfter(cmds + [c]) == PenAt(c.p)
    ensures Strokes(cmds + [c]) ==
            if c.LineTo? && PenAfter(cmds).PenAt? then Strokes(cmds) + [(PenAfter(cmds).p, c.p)] else Strokes(cmds)
  {
    assert (cmds + [c])[..|cmds|] == cmds;
  }

  function PointAt(points: seq<Coord>, i: nat): Point
    requires i + 1 < |points| && points[i].Num? && points[i + 1].Num?
  {
    Point(points[i].v, points[i + 1].v)
  }

  /** The strokes are the visible parts of the segments that end at or before index i, in order:
      one for every pair of neighbouring points that is visible, none for gaps and invisible
      pairs. */
  ghost predicate DrawnUpTo(points: seq<Coord>, ps: nat, box: Box, i: nat, strokes: seq<(Point, Point)>)
    requires WellFormed(points, ps) && Multiple(i, ps) && i < |points|
    decreases i
  {
    if i == 0 then strokes == []
    else
      PairOf(points, ps, i - ps);
      PairOf(points, ps, i);
      if points[i - ps].Null? || points[i].Null? then DrawnUpTo(points, ps, box, i - ps, strokes)
      else
        var a, b := PointAt(points, i - ps), PointAt(points, i);
        || (IsInvisible(a, b, box) && DrawnUpTo(points, ps, box, i - ps, strokes))
        || (strokes != [] && var n := |strokes| - 1;
            IsVisiblePart(a, b, box, strokes[n].0, strokes[n].1) && DrawnUpTo(points, ps, box, i - ps, strokes[..n]))
  }

  method PlotLine(points: seq<Coord>, ps: nat, box: Box) returns (cmds: seq<Command>)
    requires WellFormed(points, ps)
    ensures points == [] ==> cmds == []
    ensures points != [] ==> |points| >= ps && Multiple(|points| - ps, ps)
                             && DrawnUpTo(points, ps, box, |points| - ps, Strokes(cmds))
  {
    hide IsVisiblePart, IsInvisible;
    cmds := [];
    var prev: Pen := NoPen;
    var i := ps;
    while i < |points|
      invariant ps <= i && Multiple(i, ps) && (points != [] ==> i <= |points|)
      invariant prev == PenAfter(cmds) && (points == [] ==> cmds == [])
      invariant points != [] ==> DrawnUpTo(points, ps, box, i - ps, Strokes(cmds))
    {
      PairOf(points, ps, i - ps);
      PairOf(points, ps, i);
      if points[i - ps].Num? && points[i].Num? {
        var x1, y1 := points[i - ps].v, points[i - ps + 1].v;
        var x2, y2 := points[i].v, points[i + 1].v;
        var visible;
        visible, x1, y1, x2, y2 := ClipSegment(x1, y1, x2, y2, box);
        if visible {
          var p, q := Point(x1, y1), Point(x2, y2);
          ghost var before := Strokes(cmds);
          if prev != PenAt(p) {
            StrokesStep(cmds, MoveTo(p));
            cmds := cmds + [MoveTo(p)];
          }
          prev := PenAt(q);
          StrokesStep(cmds, LineTo(q));
          cmds := cmds + [LineTo(q)];
          assert Strokes(cmds) == before + [(p, q)];
          assert Strokes(cmds)[..|before|] == before;
        }
      }
      i := i + ps;
    }
  }
}
