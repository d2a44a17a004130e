/** What the outlines of the filled areas are: inside the box, well bracketed, and exactly the
    image of the data under clamping to the box. */
module FlotAreaLaws {
  import opened FlotClips
  import opened FlotAreas

  // ----- every area is opened and filled once

  /** Commands that open, draw and fill one outline after the other. */
  ghost predicate Bracketed(cmds: seq<Stroke>, open: bool) {
    if cmds == [] then !open
    else match cmds[0]
      case Start(_) => !open && Bracketed(cmds[1..], true)
      case Line(_) => open && Bracketed(cmds[1..], open)
      case Fill => open && Bracketed(cmds[1..], false)
  }

  lemma {:induction false} LinesBracketed(vertices: seq<Point>, rest: seq<Stroke>)
    requires Bracketed(rest, true)
    ensures Bracketed(Lines(vertices) + rest, true)
    decreases |vertices|
  {
    var all := Lines(vertices) + rest;
    if vertices == [] {
      assert all == rest;
    } else {
      LinesBracketed(vertices[1..], rest);
      assert all[0] == Line(vertices[0]);
      assert all[1..] == Lines(vertices[1..]) + rest;
    }
  }

  /** Every area that is opened is filled exactly once, before the next one is opened and before
      the end. */
  lemma {:induction false} AreasBracketed(points: seq<Coord>, ps: nat, box: Box, s: nat)
    requires ps > 0
    ensures Bracketed(Areas(points, ps, box, s), false)
    decreases |points| + 4 * ps - s
  {
    hide NextVisible, NextGap, TopOutline, BottomOutline, Lines, Base, Bracketed, AreaOutline, Areas;
    AreasAt(points, ps, box, s);
    var v := NextVisible(points, ps, box, s + ps);
    if v == |points| {
      NothingBracketed();
    } else {
      var e := NextGap(points, ps, v);
      AreasBracketed(points, ps, box, e + ps);
      OneBracketed(points, ps, box, s, v, e, Areas(points, ps, box, e + ps));
    }
  }

  lemma NothingBracketed()
    ensures Bracketed([], false)
  {
  }

  lemma OneBracketed(points: seq<Coord>, ps: nat, box: Box, s: nat, v: nat, e: nat, rest: seq<Stroke>)
    requires ps > 0 && Bracketed(rest, false)
    ensures Bracketed(AreaOutline(points, ps, box, s, v, e) + rest, false)
  {
    hide NextVisible, NextGap, TopOutline, BottomOutline, Lines, Base;
    var top, bottom := Lines(TopOutline(points, ps, box, s, e)), Lines(BottomOutline(points, ps, box, e, s));
    var start := Start(Point(Base(points, ps, box, v), Bottom(box)));
    var end := [Fill] + rest;
    assert end[0] == Fill && end[1..] == rest;
    LinesBracketed(BottomOutline(points, ps, box, e, s), end);
    LinesBracketed(TopOutline(points, ps, box, s, e), bottom + end);
    var all := AreaOutline(points, ps, box, s, v, e) + rest;
    assert all == [start] + (top + (bottom + end));
    assert all[0] == start && all[1..] == top + (bottom + end);
  }

  // ----- clipping the x values

  /** A segment's visible part between the x limits. */
  lemma ClippedXIsPart(a: Point, b: Point, box: Box)
    ensures IsPart(a, b, [] + [XMin(box.xmin)] + [XMax(box.xmax)], ClippedX(a, b, box))
  {
    hide IsPiece, Misses, Cut;
    WholeSegment(a, b);
    var first := Cut(a, b, XMin(box.xmin));
    CutIsPart(a, b, [], a, b, XMin(box.xmin));
    match first
    case Hidden => MissesMore(a, b, [] + [XMin(box.xmin)], XMax(box.xmax));
    case Shown(p, q) => CutIsPart(a, b, [] + [XMin(box.xmin)], p, q, XMax(box.xmax));
  }

  lemma InsideTwo(p: Point, s: Side, t: Side)
    ensures Inside(p, [] + [s] + [t]) <==> s.Depth(p) >= 0.0 && t.Depth(p) >= 0.0
  {
    hide Side.Depth;
    InsideMore(p, [] + [s], t);
    InsideMore(p, [], s);
  }

  lemma EndsOnSegment(a: Point, b: Point)
    ensures OnSegment(a, a, b) && OnSegment(b, a, b)
  {
    MixEnds(a.x, b.x);
    MixEnds(a.y, b.y);
    assert a == At(a, b, 0.0);
    assert b == At(a, b, 1.0);
  }

  // ----- the parts of a segment below, in and above the box

  /** The segment splits at any of its points. */
  lemma Split(a: Point, b: Point, p: Point, r: Point)
    requires OnSegment(p, a, b)
    ensures OnSegment(r, a, b) <==> OnSegment(r, a, p) || OnSegment(r, p, b)
  {
    hide At;
    var s :| 0.0 <= s <= 1.0 && p == At(a, b, s);
    if OnSegment(r, a, b) {
      var t :| 0.0 <= t <= 1.0 && r == At(a, b, t);
      if t >= s {
        var u := Remaining(s, t);
        AtAt(a, b, s, u);
      } else {
        var u := Remaining(1.0 - s, 1.0 - t);
        AtBack(a, b, s);
        AtBack(a, b, t);
        AtAt(b, a, 1.0 - s, u);
        assert OnSegment(r, p, a);
        Backwards(r, a, p);
      }
    }
    if OnSegment(r, p, b) {
      var u :| 0.0 <= u <= 1.0 && r == At(p, b, u);
      AtAt(a, b, s, u);
      MixBounds(s, 1.0, u, 0.0, 1.0);
    }
    if OnSegment(r, a, p) {
      Backwards(r, a, p);
      var u :| 0.0 <= u <= 1.0 && r == At(p, a, u);
      AtBack(a, b, s);
      AtAt(b, a, 1.0 - s, u);
      MixBounds(1.0 - s, 1.0, u, 0.0, 1.0);
      assert OnSegment(r, b, a);
      Backwards(r, a, b);
    }
  }

  lemma AtBack(a: Point, b: Point, t: real)
    ensures At(b, a, 1.0 - t) == At(a, b, t)
  {
    hide Mix;
    MixBack(a.x, b.x, t);
    MixBack(a.y, b.y, t);
  }

  /** p before q on the way from a to b. */
  lemma InOrder(a: Point, b: Point, q: Point, p: Point)
    requires OnSegment(q, a, b) && OnSegment(p, a, q)
    ensures OnSegment(q, p, b) && OnSegment(p, a, b)
  {
    hide At, Mix;
    var w :| 0.0 <= w <= 1.0 && q == At(a, b, w);
    var c :| 0.0 <= c <= 1.0 && p == At(a, q, c);
    AtPart(a, b, w, c);
    SmallerFraction(w, c);
    var u := Remaining(w * c, w);
    AtAt(a, b, w * c, u);
  }

  lemma SmallerFraction(w: real, c: real)
    requires 0.0 <= w <= 1.0 && 0.0 <= c <= 1.0
    ensures 0.0 <= w * c <= w
  {
    MulNonneg(w, c);
    MulNonneg(w, 1.0 - c);
  }

  lemma AtPart(a: Point, b: Point, w: real, c: real)
    ensures At(a, At(a, b, w), c) == At(a, b, w * c)
  {
    hide Mix;
    MixPart(a.x, b.x, w, c);
    MixPart(a.y, b.y, w, c);
  }

  lemma MixPart(u: real, v: real, w: real, c: real)
    ensures Mix(u, Mix(u, v, w), c) == Mix(u, v, w * c)
  {
  }

  /** From a to p the segment runs outside the box, on the side of a; or p is a itself. */
  ghost predicate Flank(a: Point, p: Point, box: Box) {
    || (p == a && box.ymin <= a.y <= box.ymax)
    || (a.y < box.ymin && p.y == box.ymin)
    || (a.y > box.ymax && p.y == box.ymax)
  }

  /** A cut from a towards b is where the border is. */
  lemma CutPoint(a: Point, b: Point, side: Side)
    requires side.Depth(a) < 0.0 <= side.Depth(b)
    ensures var p := At(a, b, Crossing(a, b, side)); OnSegment(p, a, b) && side.Depth(p) == 0.0
  {
    hide At, Mix, Crossing, Side.Depth;
    CrossPoint(a, b, side);
    CrossingBounds(a, b, side);
  }

  ghost predicate PartsOf(a: Point, b: Point, p: Point, q: Point, box: Box) {
    && OnSegment(p, a, b) && OnSegment(q, p, b)
    && box.ymin <= p.y <= box.ymax && box.ymin <= q.y <= box.ymax
    && Flank(a, p, box) && Flank(b, q, box)
  }

  /** When the segment is not on one side of the box: the y stages find its part inside. */
  lemma ClippedYParts(a: Point, b: Point, box: Box)
    requires box.Proper()
    requires !(a.y >= box.ymax && b.y >= box.ymax) && !(a.y <= box.ymin && b.y <= box.ymin)
    ensures var r := ClippedY(a, b, box); r.Shown? && PartsOf(a, b, r.from, r.to, box)
  {
    hide At, Crossing, Cut, OnSegment;
    CutCases(a, b, YMin(box.ymin));
    EndsOnSegment(a, b);
    if a.y < box.ymin {
      var p := At(a, b, Crossing(a, b, YMin(box.ymin)));
      CutPoint(a, b, YMin(box.ymin));
      EndsOnSegment(p, b);
      CutCases(p, b, YMax(box.ymax));
      if b.y > box.ymax {
        CutPoint(b, p, YMax(box.ymax));
        Backwards(At(b, p, Crossing(b, p, YMax(box.ymax))), b, p);
      }
    } else if b.y < box.ymin {
      var q := At(b, a, Crossing(b, a, YMin(box.ymin)));
      CutPoint(b, a, YMin(box.ymin));
      Backwards(q, b, a);
      CutCases(a, q, YMax(box.ymax));
      if a.y > box.ymax {
        CutPoint(a, q, YMax(box.ymax));
        InOrder(a, b, q, At(a, q, Crossing(a, q, YMax(box.ymax))));
      }
    } else {
      CutCases(a, b, YMax(box.ymax));
      if a.y > box.ymax {
        CutPoint(a, b, YMax(box.ymax));
        EndsOnSegment(At(a, b, Crossing(a, b, YMax(box.ymax))), b);
      } else if b.y > box.ymax {
        var q := At(b, a, Crossing(b, a, YMax(box.ymax)));
        CutPoint(b, a, YMax(box.ymax));
        Backwards(q, b, a);
      }
    }
  }

  // ----- the outline is the clamped segment

  /** z lies on one of the edges between consecutive vertices. */
  ghost predicate OnPath(z: Point, vertices: seq<Point>) {
    exists k :: 0 <= k < |vertices| - 1 && OnSegment(z, vertices[k], vertices[k + 1])
  }

  /** z is a point of the segment moved into the box. */
  ghost predicate IsClampedPoint(z: Point, a: Point, b: Point, box: Box) {
    exists r :: OnSegment(r, a, b) && z == Clamped(r, box)
  }

  lemma OnSegmentY(r: Point, a: Point, p: Point, lo: real, hi: real)
    requires OnSegment(r, a, p) && lo <= a.y <= hi && lo <= p.y <= hi
    ensures lo <= r.y <= hi
  {
    hide Mix;
    var t :| 0.0 <= t <= 1.0 && r == At(a, p, t);
    MixBounds(a.y, p.y, t, lo, hi);
  }

  /** Clamping a flank gives the piece of the border below or above it. */
  lemma FlankClamped(z: Point, a: Point, p: Point, box: Box)
    requires box.Proper() && Flank(a, p, box)
    ensures OnSegment(z, Point(a.x, p.y), p) <==> IsClampedPoint(z, a, p, box)
  {
    var c := Point(a.x, p.y);
    if OnSegment(z, c, p) {
      var t :| 0.0 <= t <= 1.0 && z == At(c, p, t);
      var r := At(a, p, t);
      assert OnSegment(r, a, p);
      FlankPoint(r, a, p, box);
      MixSame(p.y, t);
      assert z == Clamped(r, box);
    }
    if IsClampedPoint(z, a, p, box) {
      var r :| OnSegment(r, a, p) && z == Clamped(r, box);
      var t :| 0.0 <= t <= 1.0 && r == At(a, p, t);
      FlankPoint(r, a, p, box);
      MixSame(p.y, t);
      assert z == At(c, p, t);
    }
  }

  lemma FlankPoint(r: Point, a: Point, p: Point, box: Box)
    requires box.Proper() && Flank(a, p, box) && OnSegment(r, a, p)
    ensures Clamp(r.y, box.ymin, box.ymax) == p.y
  {
    hide OnSegment;
    if p == a {
      OnSegmentY(r, a, p, a.y, a.y);
    } else if a.y < p.y {
      OnSegmentY(r, a, p, a.y, p.y);
    } else {
      OnSegmentY(r, a, p, p.y, a.y);
    }
  }

  lemma MixSame(u: real, t: real)
    ensures Mix(u, u, t) == u
  {
  }

  lemma InsideClamped(z: Point, p: Point, q: Point, box: Box)
    requires box.ymin <= p.y <= box.ymax && box.ymin <= q.y <= box.ymax
    ensures OnSegment(z, p, q) <==> IsClampedPoint(z, p, q, box)
  {
    hide OnSegment;
    if OnSegment(z, p, q) {
      OnSegmentY(z, p, q, box.ymin, box.ymax);
      assert z == Clamped(z, box);
    }
    if IsClampedPoint(z, p, q, box) {
      var r :| OnSegment(r, p, q) && z == Clamped(r, box);
      OnSegmentY(r, p, q, box.ymin, box.ymax);
    }
  }

  /** Clamping a segment wholly above (or below) the box. */
  lemma OutsideClamped(z: Point, a: Point, b: Point, box: Box, c: real)
    requires box.Proper()
    requires (c == box.ymax && a.y >= c && b.y >= c) || (c == box.ymin && a.y <= c && b.y <= c)
    ensures OnSegment(z, Point(a.x, c), Point(b.x, c)) <==> IsClampedPoint(z, a, b, box)
  {
    var a', b' := Point(a.x, c), Point(b.x, c);
    if OnSegment(z, a', b') {
      var t :| 0.0 <= t <= 1.0 && z == At(a', b', t);
      var r := At(a, b, t);
      assert OnSegment(r, a, b);
      OutsidePoint(r, a, b, box, c);
      MixSame(c, t);
      assert z == Clamped(r, box);
    }
    if IsClampedPoint(z, a, b, box) {
      var r :| OnSegment(r, a, b) && z == Clamped(r, box);
      var t :| 0.0 <= t <= 1.0 && r == At(a, b, t);
      OutsidePoint(r, a, b, box, c);
      MixSame(c, t);
      assert z == At(a', b', t);
    }
  }

  lemma OutsidePoint(r: Point, a: Point, b: Point, box: Box, c: real)
    requires box.Proper() && OnSegment(r, a, b)
    requires (c == box.ymax && a.y >= c && b.y >= c) || (c == box.ymin && a.y <= c && b.y <= c)
    ensures Clamp(r.y, box.ymin, box.ymax) == c
  {
    hide OnSegment;
    var lo, hi := if a.y < b.y then a.y else b.y, if a.y < b.y then b.y else a.y;
    OnSegmentY(r, a, b, lo, hi);
  }

  lemma ClampedSplit(z: Point, a: Point, b: Point, p: Point, box: Box)
    requires OnSegment(p, a, b)
    ensures IsClampedPoint(z, a, b, box) <==> IsClampedPoint(z, a, p, box) || IsClampedPoint(z, p, b, box)
  {
    hide OnSegment, Clamped;
    forall r
      ensures OnSegment(r, a, b) <==> OnSegment(r, a, p) || OnSegment(r, p, b)
    {
      Split(a, b, p, r);
    }
  }

  /** The edges with and without the parts along the border. */
  lemma PathParts(z: Point, c: Point, p: Point, q: Point, d: Point, vertices: seq<Point>)
    requires vertices == (if p.x != c.x then [c] else []) + [p, q] + (if q.x != d.x then [q, d] else [])
    requires c.y == p.y && d.y == q.y
    ensures OnPath(z, vertices) <==> OnSegment(z, c, p) || OnSegment(z, p, q) || OnSegment(z, q, d)
  {
    hide At;
    var i := if p.x != c.x then 1 else 0;
    assert vertices[i] == p && vertices[i + 1] == q;
    EndsOnSegment(p, q);
    if p.x == c.x {
      assert c == p;
      OnlyPoint(z, p);
    } else {
      assert vertices[0] == c;
    }
    OnlyPoint(z, q);
    if q.x == d.x {
      assert d == q;
    } else {
      assert vertices[i + 2] == q && vertices[i + 3] == d;
    }
  }

  lemma OnlyPoint(z: Point, p: Point)
    ensures OnSegment(z, p, p) <==> z == p
  {
    if OnSegment(z, p, p) {
      var t :| 0.0 <= t <= 1.0 && z == At(p, p, t);
      MixSame(p.x, t);
      MixSame(p.y, t);
    } else {
      EndsOnSegment(p, p);
    }
  }

  /** The vertices of a segment between the x limits trace exactly the clamped segment. */
  lemma VerticesTraceClamped(z: Point, a: Point, b: Point, box: Box)
    requires box.Proper()
    ensures OnPath(z, Vertices(a, b, box)) <==> IsClampedPoint(z, a, b, box)
  {
    hide OnSegment, IsClampedPoint, ClippedY, Flank;
    var vertices := Vertices(a, b, box);
    if (a.y >= box.ymax && b.y >= box.ymax) || (a.y <= box.ymin && b.y <= box.ymin) {
      var c := if a.y >= box.ymax && b.y >= box.ymax then box.ymax else box.ymin;
      assert vertices == [Point(a.x, c), Point(b.x, c)];
      assert OnPath(z, vertices) <==> OnSegment(z, vertices[0], vertices[1]);
      OutsideClamped(z, a, b, box, c);
    } else {
      ClippedYParts(a, b, box);
      var r := ClippedY(a, b, box);
      var p, q := r.from, r.to;
      var c, d := Point(a.x, p.y), Point(b.x, q.y);
      PathParts(z, c, p, q, d, vertices);
      ClampedSplit(z, a, b, p, box);
      ClampedSplit(z, p, b, q, box);
      FlankClamped(z, a, p, box);
      InsideClamped(z, p, q, box);
      FlankClamped(z, b, q, box);
      Backwards(z, q, d);
      ClampedBack(z, q, b, box);
    }
  }

  lemma ClampedBack(z: Point, a: Point, b: Point, box: Box)
    ensures IsClampedPoint(z, a, b, box) <==> IsClampedPoint(z, b, a, box)
  {
    hide OnSegment, Clamped;
    forall r
      ensures OnSegment(r, a, b) <==> OnSegment(r, b, a)
    {
      Backwards(r, a, b);
    }
  }

  /** What is traced for a pair of points is exactly the part of their segment between the x
      limits, moved into the box; for a pair with no such part nothing is traced. */
  lemma OutlineIsClampedData(z: Point, a: Point, b: Point, box: Box)
    requires box.Proper()
    ensures OnPath(z, Outline(a, b, box)) <==>
            exists r :: OnSegment(r, a, b) && box.xmin <= r.x <= box.xmax && z == Clamped(r, box)
  {
    hide OnSegment, ClippedX, Vertices, Clamped, Inside, SameDirection;
    ClippedXIsPart(a, b, box);
    forall r
      ensures Inside(r, [] + [XMin(box.xmin)] + [XMax(box.xmax)]) <==> box.xmin <= r.x <= box.xmax
    {
      InsideTwo(r, XMin(box.xmin), XMax(box.xmax));
    }
    match ClippedX(a, b, box)
    case Hidden =>
    case Shown(p, q) => VerticesTraceClamped(z, p, q, box);
  }

  // ----- everything drawn is in the box

  ghost predicate Drawn(cmd: Stroke, box: Box) {
    cmd.Fill? || box.Contains(cmd.p)
  }

  ghost predicate AllDrawn(cmds: seq<Stroke>, box: Box) {
    forall k :: 0 <= k < |cmds| ==> Drawn(cmds[k], box)
  }

  ghost predicate AllIn(vertices: seq<Point>, box: Box) {
    forall k :: 0 <= k < |vertices| ==> box.Contains(vertices[k])
  }

  lemma OutlineInBox(a: Point, b: Point, box: Box)
    requires box.Proper()
    ensures AllIn(Outline(a, b, box), box)
  {
    var vertices := Outline(a, b, box);
    OutlineLength(a, b, box);
    hide OnSegment, Outline;
    forall k | 0 <= k < |vertices|
      ensures box.Contains(vertices[k])
    {
      var z := vertices[k];
      if k + 1 < |vertices| {
        EndsOnSegment(z, vertices[k + 1]);
      } else {
        EndsOnSegment(vertices[k - 1], z);
        assert OnSegment(z, vertices[k - 1], vertices[k - 1 + 1]);
      }
      assert OnPath(z, vertices);
      OutlineIsClampedData(z, a, b, box);
    }
  }

  lemma OutlineLength(a: Point, b: Point, box: Box)
    ensures Outline(a, b, box) != [] ==> |Outline(a, b, box)| >= 2
  {
    hide Cut;
  }

  lemma {:induction false} TopInBox(points: seq<Coord>, ps: nat, box: Box, s: nat, e: nat)
    requires ps > 0 && box.Proper()
    ensures AllIn(TopOutline(points, ps, box, s, e), box)
    decreases e
  {
    hide Outline;
    if e >= s + ps {
      TopInBox(points, ps, box, s, e - ps);
      OutlineInBox(Pick(points, e - ps, 1), Pick(points, e, 1), box);
    }
  }

  lemma {:induction false} BottomInBox(points: seq<Coord>, ps: nat, box: Box, e: nat, i: int)
    requires ps > 0 && box.Proper()
    ensures AllIn(BottomOutline(points, ps, box, e, i), box)
    decreases e - i
  {
    hide Outline;
    if i < e {
      BottomInBox(points, ps, box, e, i + ps);
      OutlineInBox(Pick(points, i + ps, 2), Pick(points, i, 2), box);
    }
  }

  lemma ClippedXBounds(a: Point, b: Point, box: Box)
    ensures var r := ClippedX(a, b, box);
            r.Shown? ==> box.xmin <= r.from.x <= box.xmax && box.xmin <= r.to.x <= box.xmax
  {
    hide Cut, OnSegment, Inside, SameDirection, ClippedX;
    ClippedXIsPart(a, b, box);
    var r := ClippedX(a, b, box);
    if r.Shown? {
      EndsOnSegment(r.from, r.to);
      InsideTwo(r.from, XMin(box.xmin), XMax(box.xmax));
      InsideTwo(r.to, XMin(box.xmin), XMax(box.xmax));
    }
  }

  lemma BaseInBox(points: seq<Coord>, ps: nat, box: Box, v: nat)
    requires ps > 0 && box.Proper() && PairClip(points, v - ps, v, 1, box).Shown?
    ensures box.Contains(Point(Base(points, ps, box, v), Bottom(box)))
  {
    hide ClippedX;
    ClippedXBounds(Pick(points, v - ps, 1), Pick(points, v, 1), box);
  }

  lemma DrawnConcat(c: seq<Stroke>, d: seq<Stroke>, box: Box)
    requires AllDrawn(c, box) && AllDrawn(d, box)
    ensures AllDrawn(c + d, box)
  {
  }

  lemma DrawnLines(vertices: seq<Point>, box: Box)
    requires AllIn(vertices, box)
    ensures AllDrawn(Lines(vertices), box)
  {
  }

  lemma OneInBox(points: seq<Coord>, ps: nat, box: Box, s: nat, v: nat, e: nat)
    requires ps > 0 && box.Proper() && PairClip(points, v - ps, v, 1, box).Shown?
    ensures AllDrawn(AreaOutline(points, ps, box, s, v, e), box)
  {
    hide PairClip, TopOutline, BottomOutline, Base, Bottom, Lines, AllIn;
    var top, bottom := TopOutline(points, ps, box, s, e), BottomOutline(points, ps, box, e, s);
    var start := [Start(Point(Base(points, ps, box, v), Bottom(box)))];
    BaseInBox(points, ps, box, v);
    TopInBox(points, ps, box, s, e);
    BottomInBox(points, ps, box, e, s);
    DrawnLines(top, box);
    DrawnLines(bottom, box);
    DrawnConcat(start, Lines(top), box);
    DrawnConcat(start + Lines(top), Lines(bottom), box);
    DrawnConcat(start + Lines(top) + Lines(bottom), [Fill], box);
  }

  /** Every vertex that is emitted lies in the box. */
  lemma {:induction false} AreasInBox(points: seq<Coord>, ps: nat, box: Box, s: nat)
    requires ps > 0 && box.Proper()
    ensures AllDrawn(Areas(points, ps, box, s), box)
    decreases |points| + 4 * ps - s
  {
    hide NextVisible, NextGap, AreaOutline, Areas, PairClip;
    AreasAt(points, ps, box, s);
    VisibleIsShown(points, ps, box, s + ps);
    var v := NextVisible(points, ps, box, s + ps);
    if v < |points| {
      var e := NextGap(points, ps, v);
      AreasInBox(points, ps, box, e + ps);
      OneInBox(points, ps, box, s, v, e);
      DrawnConcat(AreaOutline(points, ps, box, s, v, e), Areas(points, ps, box, e + ps), box);
    }
  }

  lemma {:induction false} VisibleIsShown(points: seq<Coord>, ps: nat, box: Box, i: nat)
    requires ps > 0
    ensures var v := NextVisible(points, ps, box, i);
            v < |points| ==> PairClip(points, v - ps, v, 1, box).Shown?
    decreases |points| + ps - i
  {
    hide PairClip;
    if i < |points| && PairClip(points, i - ps, i, 1, box).Hidden? {
      VisibleIsShown(points, ps, box, i + ps);
    }
  }

  // ----- what belongs to one area

  /** From the first visible pair to the gap there is no other gap, and every pair between s and
      the first visible pair is hidden: one area is one stretch of the data. */
  lemma {:induction false} NoGapInside(points: seq<Coord>, ps: nat, v: nat, j: nat)
    requires ps > 0 && v <= j < NextGap(points, ps, v) && Multiple(j - v, ps)
    ensures Get(points, j).Num? && Get(points, NextGap(points, ps, v)).Null?
    decreases j - v
  {
    if Get(points, v).Num? {
      if j > v {
        NoGapInside(points, ps, v + ps, j);
      } else {
        GapIsNull(points, ps, v + ps);
      }
    }
  }

  lemma {:induction false} GapIsNull(points: seq<Coord>, ps: nat, i: nat)
    requires ps > 0
    ensures Get(points, NextGap(points, ps, i)).Null?
    decreases |points| + ps - i
  {
    if Get(points, i).Num? {
      GapIsNull(points, ps, i + ps);
    }
  }

  lemma {:induction false} HiddenBefore(points: seq<Coord>, ps: nat, box: Box, i: nat, j: nat)
    requires ps > 0 && i <= j < NextVisible(points, ps, box, i) && Multiple(j - i, ps)
    ensures PairClip(points, j - ps, j, 1, box).Hidden?
    decreases j - i
  {
    hide PairClip;
    if PairClip(points, i - ps, i, 1, box).Hidden? && j > i {
      HiddenBefore(points, ps, box, i + ps, j);
    }
  }

  /** How many areas from index s on sketch the pair that ends at j. */
  function AreasWith(points: seq<Coord>, ps: nat, box: Box, s: nat, j: nat): nat
    requires ps > 0
    decreases |points| + 4 * ps - s
  {
    var v := NextVisible(points, ps, box, s + ps);
    if v == |points| then 0
    else
      var e := NextGap(points, ps, v);
      (if s < j <= e then 1 else 0) + AreasWith(points, ps, box, e + ps, j)
  }

  lemma {:induction false} NoneBehind(points: seq<Coord>, ps: nat, box: Box, s: nat, j: nat)
    requires ps > 0 && j <= s
    ensures AreasWith(points, ps, box, s, j) == 0
    decreases |points| + 4 * ps - s
  {
    hide NextVisible, NextGap;
    var v := NextVisible(points, ps, box, s + ps);
    if v != |points| {
      NoneBehind(points, ps, box, NextGap(points, ps, v) + ps, j);
    }
  }

  /** A visible pair is not passed over. */
  lemma {:induction false} FoundInTime(points: seq<Coord>, ps: nat, box: Box, i: nat, j: nat)
    requires ps > 0 && i <= j < |points| && Multiple(j - i, ps) && PairClip(points, j - ps, j, 1, box).Shown?
    ensures NextVisible(points, ps, box, i) <= j
    decreases j - i
  {
    hide PairClip;
    if PairClip(points, i - ps, i, 1, box).Hidden? {
      NextMultiple(j - i, ps);
      FoundInTime(points, ps, box, i + ps, j);
    }
  }

  lemma NextMultiple(n: nat, ps: nat)
    requires ps > 0 && Multiple(n, ps) && n > 0
    ensures n >= ps && Multiple(n - ps, ps)
  {
  }

  lemma {:induction false} Reached(points: seq<Coord>, ps: nat, box: Box, i: nat)
    requires ps > 0 && Multiple(i, ps) && NextVisible(points, ps, box, i) < |points|
    ensures Multiple(NextVisible(points, ps, box, i), ps) && NextVisible(points, ps, box, i) >= i
    decreases |points| + ps - i
  {
    hide PairClip;
    if i < |points| && PairClip(points, i - ps, i, 1, box).Hidden? {
      MultipleNext(i, ps);
      Reached(points, ps, box, i + ps);
    }
  }

  lemma {:induction false} GapReached(points: seq<Coord>, ps: nat, i: nat)
    requires ps > 0 && Multiple(i, ps)
    ensures Multiple(NextGap(points, ps, i), ps)
    decreases |points| + ps - i
  {
    if Get(points, i).Num? {
      MultipleNext(i, ps);
      GapReached(points, ps, i + ps);
    }
  }

  lemma {:induction false} Spaced(i: nat, j: nat, ps: nat)
    requires ps > 0 && Multiple(i, ps) && Multiple(j, ps) && i <= j
    ensures Multiple(j - i, ps) && (i < j ==> i + ps <= j)
    decreases i
  {
    if i > 0 {
      NextMultiple(i, ps);
      NextMultiple(j, ps);
      Spaced(i - ps, j - ps, ps);
    } else if j > 0 {
      NextMultiple(j, ps);
    }
  }

  /** Every visible pair is sketched in exactly one area. */
  lemma {:induction false} OneAreaEach(points: seq<Coord>, ps: nat, box: Box, s: nat, j: nat)
    requires ps > 0 && Multiple(s, ps) && Multiple(j, ps) && s < j < |points|
    requires PairClip(points, j - ps, j, 1, box).Shown?
    ensures AreasWith(points, ps, box, s, j) == 1
    decreases |points| + 4 * ps - s
  {
    hide PairClip, NextVisible, NextGap;
    Spaced(s, j, ps);
    MultipleNext(s, ps);
    Spaced(s + ps, j, ps);
    FoundInTime(points, ps, box, s + ps, j);
    var v := NextVisible(points, ps, box, s + ps);
    Reached(points, ps, box, s + ps);
    var e := NextGap(points, ps, v);
    GapReached(points, ps, v);
    GapIsNull(points, ps, v);
    MultipleNext(e, ps);
    if j <= e {
      NoneBehind(points, ps, box, e + ps, j);
    } else {
      Spaced(e, j, ps);
      GapHides(points, ps, box, e, j);
      OneAreaEach(points, ps, box, e + ps, j);
    }
  }

  lemma GapHides(points: seq<Coord>, ps: nat, box: Box, e: nat, j: nat)
    requires Get(points, e).Null? && PairClip(points, j - ps, j, 1, box).Shown?
    ensures e != j - ps
  {
  }

  // ----- what an area draws of one pair

  lemma {:induction false} TopHolds(points: seq<Coord>, ps: nat, box: Box, s: nat, j: nat, e: nat)
    returns (w: seq<Point>)
    requires ps > 0 && s + ps <= j <= e && Multiple(e - j, ps)
    ensures TopOutline(points, ps, box, s, e) ==
            TopOutline(points, ps, box, s, j - ps) + PairOutline(points, j - ps, j, 1, box) + w
    decreases e
  {
    hide PairOutline, Multiple;
    if e == j {
      w := [];
    } else {
      NextMultiple(e - j, ps);
      var z := TopHolds(points, ps, box, s, j, e - ps);
      w := z + PairOutline(points, e - ps, e, 1, box);
    }
  }

  lemma {:induction false} BottomHolds(points: seq<Coord>, ps: nat, box: Box, e: nat, j: nat, i: nat)
    returns (w: seq<Point>)
    requires ps > 0 && i + ps <= j <= e && Multiple(j - ps - i, ps)
    ensures BottomOutline(points, ps, box, e, i) ==
            BottomOutline(points, ps, box, e, j) + PairOutline(points, j, j - ps, 2, box) + w
    decreases j - i
  {
    hide PairOutline, Multiple;
    if i + ps == j {
      w := [];
    } else {
      NextMultiple(j - ps - i, ps);
      var z := BottomHolds(points, ps, box, e, j, i + ps);
      w := z + PairOutline(points, i + ps, i, 2, box);
    }
  }

  ghost predicate OnlyLines(cmds: seq<Stroke>) {
    forall k :: 0 <= k < |cmds| ==> cmds[k].Line?
  }

  lemma LinesAreLines(u: seq<Point>, v: seq<Point>)
    ensures OnlyLines(Lines(u) + Lines(v))
  {
  }

  /** The strokes contain the top of the pair that ends at j and, with nothing but lines between, its bottom. */
  ghost predicate Sketches(cmds: seq<Stroke>, points: seq<Coord>, ps: nat, box: Box, j: nat,
                           a: seq<Stroke>, b: seq<Stroke>, c: seq<Stroke>) {
    && OnlyLines(b)
    && cmds == a + Lines(PairOutline(points, j - ps, j, 1, box)) + b + Lines(PairOutline(points, j, j - ps, 2, box)) + c
  }

  lemma LinesOfThree(u: seq<Point>, v: seq<Point>, w: seq<Point>)
    ensures Lines(u + v + w) == Lines(u) + Lines(v) + Lines(w)
  {
    hide Lines;
    LinesConcat(u + v, w);
    LinesConcat(u, v);
  }

  lemma Regrouped(start: seq<Stroke>, t: seq<Stroke>, p: seq<Stroke>, t': seq<Stroke>, u: seq<Stroke>, q: seq<Stroke>,
                  u': seq<Stroke>, end: seq<Stroke>)
    ensures start + (t + p + t') + (u + q + u') + end == (start + t) + p + (t' + u) + q + (u' + end)
  {
  }

  /** An area from s to e draws every pair between: once along the top, and once along the bottom. */
  lemma AreaSketches(points: seq<Coord>, ps: nat, box: Box, s: nat, v: nat, e: nat, j: nat)
    returns (a: seq<Stroke>, b: seq<Stroke>, c: seq<Stroke>)
    requires ps > 0 && s + ps <= j <= e && Multiple(e - j, ps) && Multiple(j - ps - s, ps)
    ensures Sketches(AreaOutline(points, ps, box, s, v, e), points, ps, box, j, a, b, c)
  {
    hide PairOutline, Multiple, Lines, TopOutline, BottomOutline, OnlyLines;
    var t, u := TopOutline(points, ps, box, s, j - ps), BottomOutline(points, ps, box, e, j);
    var p, q := PairOutline(points, j - ps, j, 1, box), PairOutline(points, j, j - ps, 2, box);
    var t' := TopHolds(points, ps, box, s, j, e);
    var u' := BottomHolds(points, ps, box, e, j, s);
    LinesOfThree(t, p, t');
    LinesOfThree(u, q, u');
    LinesAreLines(t', u);
    var start := [Start(Point(Base(points, ps, box, v), Bottom(box)))];
    a, b, c := start + Lines(t), Lines(t') + Lines(u), Lines(u') + [Fill];
    Regrouped(start, Lines(t), Lines(p), Lines(t'), Lines(u), Lines(q), Lines(u'), [Fill]);
  }

  /** Every visible pair is drawn, along the top and along the bottom of one area. */
  lemma {:induction false} PairIsDrawn(points: seq<Coord>, ps: nat, box: Box, s: nat, j: nat)
    returns (a: seq<Stroke>, b: seq<Stroke>, c: seq<Stroke>)
    requires ps > 0 && Multiple(s, ps) && Multiple(j, ps) && s < j < |points|
    requires PairClip(points, j - ps, j, 1, box).Shown?
    ensures Sketches(Areas(points, ps, box, s), points, ps, box, j, a, b, c)
    decreases |points| + 4 * ps - s
  {
    hide PairClip, NextVisible, NextGap, PairOutline, Lines, AreaOutline, OnlyLines, Multiple;
    AreasAt(points, ps, box, s);
    Spaced(s, j, ps);
    MultipleNext(s, ps);
    Spaced(s + ps, j, ps);
    FoundInTime(points, ps, box, s + ps, j);
    var v := NextVisible(points, ps, box, s + ps);
    Reached(points, ps, box, s + ps);
    var e := NextGap(points, ps, v);
    GapReached(points, ps, v);
    GapIsNull(points, ps, v);
    MultipleNext(e, ps);
    var first, rest := AreaOutline(points, ps, box, s, v, e), Areas(points, ps, box, e + ps);
    if j <= e {
      Spaced(j, e, ps);
      a, b, c := AreaSketches(points, ps, box, s, v, e, j);
      c := c + rest;
    } else {
      Spaced(e, j, ps);
      GapHides(points, ps, box, e, j);
      a, b, c := PairIsDrawn(points, ps, box, e + ps, j);
      a := first + a;
    }
  }

  // ----- bottoms and tops

  lemma CutReversed(a: Point, b: Point, side: Side)
    ensures Cut(a, b, side).Shown? <==> Cut(b, a, side).Shown?
    ensures Cut(a, b, side).Shown? ==>
              Cut(b, a, side).from == Cut(a, b, side).to && Cut(b, a, side).to == Cut(a, b, side).from
  {
    hide At, Crossing, Cut;
    CutCases(a, b, side);
    CutCases(b, a, side);
  }

  /** The x values after a cut at an x limit depend on the x values alone. */
  lemma CutByX(a: Point, b: Point, c: Point, d: Point, side: Side)
    requires (side.XMin? || side.XMax?) && a.x == c.x && b.x == d.x
    ensures Cut(a, b, side).Shown? <==> Cut(c, d, side).Shown?
    ensures Cut(a, b, side).Shown? ==>
              Cut(a, b, side).from.x == Cut(c, d, side).from.x && Cut(a, b, side).to.x == Cut(c, d, side).to.x
  {
    hide Mix, Cut;
    CutCases(a, b, side);
    CutCases(c, d, side);
    assert side.Depth(a) == side.Depth(c) && side.Depth(b) == side.Depth(d);
  }

  /** Going back along the bottom, a pair is shown between the same x values as going forward along the top, in
      the opposite order; and it is hidden exactly if the top is. */
  lemma BottomsMirrorTops(points: seq<Coord>, i: int, j: int, box: Box)
    ensures var top, bottom := PairClip(points, i, j, 1, box), PairClip(points, j, i, 2, box);
            && (top.Shown? <==> bottom.Shown?)
            && (top.Shown? ==> bottom.from.x == top.to.x && bottom.to.x == top.from.x)
  {
    hide Cut;
    var a, b := Pick(points, i, 1), Pick(points, j, 1);
    var c, d := Pick(points, i, 2), Pick(points, j, 2);
    var lo, hi := XMin(box.xmin), XMax(box.xmax);
    CutByX(a, b, c, d, lo);
    CutReversed(c, d, lo);
    if Cut(a, b, lo).Shown? {
      var p, q := Cut(a, b, lo), Cut(c, d, lo);
      CutByX(p.from, p.to, q.from, q.to, hi);
      CutReversed(q.from, q.to, hi);
    }
  }
}
