/** In which order the outlines run: along the data, pair after pair, and back again. */
module FlotAreaOrder {
  import opened FlotClips
  import opened FlotAreas
  import opened FlotAreaLaws

  // ----- one pair

  /** The vertices are points of the segment from a to b, moved into the box, one after the other. */
  ghost predicate Runs(vertices: seq<Point>, a: Point, b: Point, box: Box, ts: seq<real>) {
    && |ts| == |vertices|
    && (forall k :: 0 <= k < |ts| ==> 0.0 <= ts[k] <= 1.0)
    && (forall k :: 0 <= k < |ts| - 1 ==> ts[k] <= ts[k + 1])
    && (forall k :: 0 <= k < |ts| ==> vertices[k] == Clamped(At(a, b, ts[k]), box))
  }

  /** From one end to the other. */
  ghost predicate RunsAll(vertices: seq<Point>, a: Point, b: Point, box: Box, ts: seq<real>) {
    Runs(vertices, a, b, box, ts) && |ts| >= 2 && ts[0] == 0.0 && ts[|ts| - 1] == 1.0
  }

  /** p before q on the way from a to b. */
  ghost predicate Ahead(a: Point, b: Point, p: Point, q: Point) {
    OnSegment(p, a, b) && OnSegment(q, p, b)
  }

  lemma Fractions(a: Point, b: Point, p: Point, q: Point) returns (s: real, w: real)
    requires Ahead(a, b, p, q)
    ensures 0.0 <= s <= w <= 1.0 && p == At(a, b, s) && q == At(a, b, w)
  {
    hide At;
    s :| 0.0 <= s <= 1.0 && p == At(a, b, s);
    var t :| 0.0 <= t <= 1.0 && q == At(p, b, t);
    AtAt(a, b, s, t);
    w := Mix(s, 1.0, t);
    MixUp(s, 1.0, 0.0, t);
    MixUp(s, 1.0, t, 1.0);
    MixEnds(s, 1.0);
  }

  lemma MixUp(s: real, w: real, t: real, u: real)
    requires s <= w && t <= u
    ensures Mix(s, w, t) <= Mix(s, w, u)
  {
    MulNonneg(u - t, w - s);
  }

  lemma AtEnds(a: Point, b: Point)
    ensures At(a, b, 0.0) == a && At(a, b, 1.0) == b
  {
  }

  lemma InBoxStays(p: Point, box: Box)
    requires box.ymin <= p.y <= box.ymax
    ensures Clamped(p, box) == p
  {
  }

  /** An end from which a flank leads to p is moved to the point beside p. */
  lemma FlankEnd(a: Point, p: Point, box: Box)
    requires box.Proper() && Flank(a, p, box)
    ensures Clamped(a, box) == Point(a.x, p.y)
  {
    hide OnSegment;
    EndsOnSegment(a, p);
    FlankPoint(a, a, p, box);
  }

  /** What is emitted for a segment between the x limits runs from its first end to its second. */
  lemma VerticesInOrder(a: Point, b: Point, box: Box) returns (ts: seq<real>)
    requires box.Proper()
    ensures RunsAll(Vertices(a, b, box), a, b, box, ts)
  {
    hide OnSegment, ClippedY, Flank, At, Clamped;
    AtEnds(a, b);
    if (a.y >= box.ymax && b.y >= box.ymax) || (a.y <= box.ymin && b.y <= box.ymin) {
      ts := [0.0, 1.0];
      Beyond(a, b, box);
    } else {
      ClippedYParts(a, b, box);
      var p, q := ClippedY(a, b, box).from, ClippedY(a, b, box).to;
      var s, w := Fractions(a, b, p, q);
      InBoxStays(p, box);
      InBoxStays(q, box);
      FlankEnd(a, p, box);
      FlankEnd(b, q, box);
      var s', w' := if p.x != a.x then s else 0.0, if q.x != b.x then w else 1.0;
      ts := (if p.x != a.x then [0.0] else []) + [s', w'] + (if q.x != b.x then [w', 1.0] else []);
      assert Point(a.x, p.y) == p || p.x != a.x;
      assert Point(b.x, q.y) == q || q.x != b.x;
    }
  }

  lemma Beyond(a: Point, b: Point, box: Box)
    requires box.Proper()
    requires (a.y >= box.ymax && b.y >= box.ymax) || (a.y <= box.ymin && b.y <= box.ymin)
    ensures Vertices(a, b, box) == [Clamped(a, box), Clamped(b, box)]
  {
  }

  /** A cut leaves a part that runs in the old direction. */
  lemma CutAhead(a: Point, b: Point, side: Side)
    ensures var r := Cut(a, b, side);
            r.Shown? ==> Ahead(a, b, r.from, r.to)
  {
    hide OnSegment, Cut, Crossing, At;
    CutCases(a, b, side);
    EndsOnSegment(a, b);
    if side.Depth(a) < 0.0 <= side.Depth(b) {
      CutPoint(a, b, side);
      EndsOnSegment(At(a, b, Crossing(a, b, side)), b);
    } else if side.Depth(b) < 0.0 <= side.Depth(a) {
      CutPoint(b, a, side);
      Backwards(At(b, a, Crossing(b, a, side)), b, a);
    }
  }

  lemma AheadAgain(a: Point, b: Point, p: Point, q: Point, p': Point, q': Point)
    requires Ahead(a, b, p, q) && Ahead(p, q, p', q')
    ensures Ahead(a, b, p', q')
  {
    hide OnSegment;
    InOrder(p, b, q, p');
    Split(a, b, p, p');
    InOrder(p', b, q, q');
  }

  lemma ClippedAhead(a: Point, b: Point, box: Box)
    ensures var r := ClippedX(a, b, box);
            r.Shown? ==> Ahead(a, b, r.from, r.to)
  {
    hide Cut, Ahead;
    CutAhead(a, b, XMin(box.xmin));
    var first := Cut(a, b, XMin(box.xmin));
    if first.Shown? {
      CutAhead(first.from, first.to, XMax(box.xmax));
      var second := Cut(first.from, first.to, XMax(box.xmax));
      if second.Shown? {
        AheadAgain(a, b, first.from, first.to, second.from, second.to);
      }
    }
  }

  lemma AtWithin(a: Point, b: Point, s: real, w: real, t: real)
    ensures At(At(a, b, s), At(a, b, w), t) == At(a, b, Mix(s, w, t))
  {
    MixWithin(a.x, b.x, s, w, t);
    MixWithin(a.y, b.y, s, w, t);
  }

  lemma MixWithin(u: real, v: real, s: real, w: real, t: real)
    ensures Mix(Mix(u, v, s), Mix(u, v, w), t) == Mix(u, v, Mix(s, w, t))
  {
  }

  /** What is emitted for a pair of points runs along their segment, in the direction in which it is gone through, from
      where that comes between the x limits to where it leaves them. */
  lemma OutlineInOrder(a: Point, b: Point, box: Box) returns (ts: seq<real>)
    requires box.Proper()
    ensures Runs(Outline(a, b, box), a, b, box, ts)
    ensures var r := ClippedX(a, b, box);
            if r.Hidden? then ts == []
            else |ts| >= 2 && At(a, b, ts[0]) == r.from && At(a, b, ts[|ts| - 1]) == r.to
  {
    hide At, Clamped, Vertices, ClippedX, Ahead, Mix;
    ts := [];
    match ClippedX(a, b, box)
    case Hidden =>
    case Shown(p, q) =>
      ClippedAhead(a, b, box);
      var s, w := Fractions(a, b, p, q);
      var us := VerticesInOrder(p, q, box);
      ts := seq(|us|, k requires 0 <= k < |us| => Mix(s, w, us[k]));
      forall k | 0 <= k < |us| ensures 0.0 <= ts[k] <= 1.0 && At(a, b, ts[k]) == At(p, q, us[k]) {
        AtWithin(a, b, s, w, us[k]);
        MixBounds(s, w, us[k], 0.0, 1.0);
      }
      forall k | 0 <= k < |us| - 1 ensures ts[k] <= ts[k + 1] {
        MixUp(s, w, us[k], us[k + 1]);
      }
      AtEnds(p, q);
  }

  // ----- neighbouring pairs

  /** An end within the limit stays, one beyond it moves to the limit. */
  lemma CutEnds(a: Point, b: Point, side: Side)
    ensures var r := Cut(a, b, side);
            r.Shown? ==> && (if side.Depth(a) >= 0.0 then r.from == a else side.Depth(r.from) == 0.0)
                         && (if side.Depth(b) >= 0.0 then r.to == b else side.Depth(r.to) == 0.0)
  {
    hide OnSegment, Cut, Crossing, At, Side.Depth;
    CutCases(a, b, side);
    if side.Depth(a) < 0.0 <= side.Depth(b) {
      CutPoint(a, b, side);
    } else if side.Depth(b) < 0.0 <= side.Depth(a) {
      CutPoint(b, a, side);
    }
  }

  /** Between the x limits the ends of a visible pair stay; beyond them they are moved to the nearer one. */
  ghost predicate EndsAt(p: Point, a: Point, box: Box) {
    if a.x < box.xmin then p.x == box.xmin else if a.x > box.xmax then p.x == box.xmax else p == a
  }

  lemma ClippedEnds(a: Point, b: Point, box: Box)
    requires box.Proper()
    ensures var r := ClippedX(a, b, box);
            r.Shown? ==> EndsAt(r.from, a, box) && EndsAt(r.to, b, box)
  {
    hide Cut;
    CutEnds(a, b, XMin(box.xmin));
    var first := Cut(a, b, XMin(box.xmin));
    if first.Shown? {
      CutEnds(first.from, first.to, XMax(box.xmax));
    }
  }

  /** Neighbouring pairs that are both visible join: where one ends the next begins, if the point between them is
      within the x limits; otherwise both are on the limit beyond which it is. */
  lemma NeighboursJoin(a: Point, b: Point, c: Point, box: Box)
    requires box.Proper() && ClippedX(a, b, box).Shown? && ClippedX(b, c, box).Shown?
    ensures var u, v := Outline(a, b, box), Outline(b, c, box);
            && u != [] && v != []
            && (if box.xmin <= b.x <= box.xmax then u[|u| - 1] == v[0] == Clamped(b, box)
                else u[|u| - 1].x == v[0].x == if b.x < box.xmin then box.xmin else box.xmax)
  {
    hide ClippedX, Outline, At;
    ClippedEnds(a, b, box);
    ClippedEnds(b, c, box);
    var ts := OutlineInOrder(a, b, box);
    var us := OutlineInOrder(b, c, box);
  }

  // ----- the top and the bottom of an area

  /** The vertices follow the pairs from left to right, and within a pair its segment; at tells the index at which the
      pair ends, and the fraction of the segment. */
  ghost predicate FollowsTops(vertices: seq<Point>, points: seq<Coord>, ps: nat, box: Box, s: nat, e: nat,
                              at: seq<(nat, real)>)
  {
    && |at| == |vertices|
    && (forall k :: 0 <= k < |at| ==> s + ps <= at[k].0 <= e && OnTop(vertices[k], points, ps, box, at[k].0, at[k].1))
    && (forall k :: 0 <= k < |at| - 1 ==> at[k].0 < at[k + 1].0 || (at[k].0 == at[k + 1].0 && at[k].1 <= at[k + 1].1))
  }

  ghost predicate OnTop(z: Point, points: seq<Coord>, ps: nat, box: Box, j: nat, t: real) {
    && PairClip(points, j - ps, j, 1, box).Shown? && 0.0 <= t <= 1.0
    && z == Clamped(At(Pick(points, j - ps, 1), Pick(points, j, 1), t), box)
  }

  lemma PairRuns(points: seq<Coord>, i: int, j: int, ypos: int, box: Box) returns (ts: seq<real>)
    requires box.Proper()
    ensures Runs(PairOutline(points, i, j, ypos, box), Pick(points, i, ypos), Pick(points, j, ypos), box, ts)
    ensures PairClip(points, i, j, ypos, box).Shown? <==> ts != []
  {
    hide Outline, ClippedX, At, Clamped;
    if Get(points, i).Null? || Get(points, j).Null? {
      ts := [];
    } else {
      ts := OutlineInOrder(Pick(points, i, ypos), Pick(points, j, ypos), box);
    }
  }

  lemma NoTops(points: seq<Coord>, ps: nat, box: Box, s: nat, e: nat)
    ensures FollowsTops([], points, ps, box, s, e, [])
  {
  }

  lemma MoreTops(vertices: seq<Point>, more: seq<Point>, points: seq<Coord>, ps: nat, box: Box, s: nat, e: nat,
                 before: seq<(nat, real)>, ts: seq<real>)
    requires e >= s + ps && ps > 0 && FollowsTops(vertices, points, ps, box, s, e - ps, before)
    requires Runs(more, Pick(points, e - ps, 1), Pick(points, e, 1), box, ts)
    requires PairClip(points, e - ps, e, 1, box).Shown? || ts == []
    ensures FollowsTops(vertices + more, points, ps, box, s, e,
                        before + seq(|ts|, k requires 0 <= k < |ts| => (e, ts[k])))
  {
    hide PairClip, Clamped, At, Pick;
    var at := before + seq(|ts|, k requires 0 <= k < |ts| => (e, ts[k]));
    forall k | 0 <= k < |at|
      ensures s + ps <= at[k].0 <= e && OnTop((vertices + more)[k], points, ps, box, at[k].0, at[k].1)
    {
      if k >= |before| {
        assert at[k] == (e, ts[k - |before|]) && (vertices + more)[k] == more[k - |before|];
      }
    }
  }

  /** The top of an area runs along the data from left to right. */
  lemma {:induction false} TopInOrder(points: seq<Coord>, ps: nat, box: Box, s: nat, e: nat)
    returns (at: seq<(nat, real)>)
    requires ps > 0 && box.Proper()
    ensures FollowsTops(TopOutline(points, ps, box, s, e), points, ps, box, s, e, at)
    decreases e
  {
    hide PairOutline, PairClip, Clamped, At, Pick, FollowsTops, Runs;
    if e < s + ps {
      NoTops(points, ps, box, s, e);
      at := [];
    } else {
      var before := TopInOrder(points, ps, box, s, e - ps);
      var ts := PairRuns(points, e - ps, e, 1, box);
      at := before + seq(|ts|, k requires 0 <= k < |ts| => (e, ts[k]));
      MoreTops(TopOutline(points, ps, box, s, e - ps), PairOutline(points, e - ps, e, 1, box), points, ps, box, s, e,
               before, ts);
    }
  }

  /** The same from right to left along the bottoms; here at tells the index to which the pair leads back. */
  ghost predicate FollowsBottoms(vertices: seq<Point>, points: seq<Coord>, ps: nat, box: Box, e: nat, i: int,
                                 at: seq<(int, real)>)
  {
    && |at| == |vertices|
    && (forall k :: 0 <= k < |at| ==> i <= at[k].0 < e && OnBottom(vertices[k], points, ps, box, at[k].0, at[k].1))
    && (forall k :: 0 <= k < |at| - 1 ==> at[k].0 > at[k + 1].0 || (at[k].0 == at[k + 1].0 && at[k].1 <= at[k + 1].1))
  }

  ghost predicate OnBottom(z: Point, points: seq<Coord>, ps: nat, box: Box, i: int, t: real) {
    && PairClip(points, i + ps, i, 2, box).Shown? && 0.0 <= t <= 1.0
    && z == Clamped(At(Pick(points, i + ps, 2), Pick(points, i, 2), t), box)
  }

  lemma NoBottoms(points: seq<Coord>, ps: nat, box: Box, e: nat, i: int)
    ensures FollowsBottoms([], points, ps, box, e, i, [])
  {
  }

  lemma MoreBottoms(vertices: seq<Point>, more: seq<Point>, points: seq<Coord>, ps: nat, box: Box, e: nat, i: int,
                    before: seq<(int, real)>, ts: seq<real>)
    requires i < e && ps > 0 && FollowsBottoms(vertices, points, ps, box, e, i + ps, before)
    requires Runs(more, Pick(points, i + ps, 2), Pick(points, i, 2), box, ts)
    requires PairClip(points, i + ps, i, 2, box).Shown? || ts == []
    ensures FollowsBottoms(vertices + more, points, ps, box, e, i,
                           before + seq(|ts|, k requires 0 <= k < |ts| => (i, ts[k])))
  {
    hide PairClip, Clamped, At, Pick;
    var at := before + seq(|ts|, k requires 0 <= k < |ts| => (i, ts[k]));
    forall k | 0 <= k < |at|
      ensures i <= at[k].0 < e && OnBottom((vertices + more)[k], points, ps, box, at[k].0, at[k].1)
    {
      if k >= |before| {
        assert at[k] == (i, ts[k - |before|]) && (vertices + more)[k] == more[k - |before|];
      }
    }
  }

  /** The bottom of an area runs along the data from right to left. */
  lemma {:induction false} BottomInOrder(points: seq<Coord>, ps: nat, box: Box, e: nat, i: int)
    returns (at: seq<(int, real)>)
    requires ps > 0 && box.Proper()
    ensures FollowsBottoms(BottomOutline(points, ps, box, e, i), points, ps, box, e, i, at)
    decreases e - i
  {
    hide PairOutline, PairClip, Clamped, At, Pick, FollowsBottoms, Runs;
    if i >= e {
      NoBottoms(points, ps, box, e, i);
      at := [];
    } else {
      var before := BottomInOrder(points, ps, box, e, i + ps);
      var ts := PairRuns(points, i + ps, i, 2, box);
      at := before + seq(|ts|, k requires 0 <= k < |ts| => (i, ts[k]));
      MoreBottoms(BottomOutline(points, ps, box, e, i + ps), PairOutline(points, i + ps, i, 2, box), points, ps, box,
                  e, i, before, ts);
    }
  }

  // ----- where an area begins

  function Abs(v: real): real {
    if v < 0.0 then -v else v
  }

  /** The base line is the value between the y limits that is nearest to zero. */
  lemma BottomIsNearestToZero(box: Box, v: real)
    requires box.Proper()
    ensures box.ymin <= Bottom(box) <= box.ymax
    ensures box.ymin <= v <= box.ymax ==> Abs(Bottom(box)) <= Abs(v)
  {
  }

  lemma {:induction false} NothingBefore(points: seq<Coord>, ps: nat, box: Box, s: nat, i: nat)
    requires ps > 0 && s <= i < NextVisible(points, ps, box, s + ps) && Multiple(i - s, ps)
    ensures TopOutline(points, ps, box, s, i) == []
    decreases i
  {
    hide PairClip, NextVisible, PairOutline;
    if i >= s + ps {
      NextMultiple(i - s, ps);
      NothingBefore(points, ps, box, s, i - ps);
      HiddenBefore(points, ps, box, s + ps, i);
      PairNothing(points, i - ps, i, 1, box);
    }
  }

  /** An area starts on the base line, right below or above the point where its first visible top begins. */
  lemma StartsBelowFirstTop(points: seq<Coord>, ps: nat, box: Box, s: nat)
    requires ps > 0 && box.Proper() && Multiple(s, ps)
    requires NextVisible(points, ps, box, s + ps) < |points|
    ensures var v := NextVisible(points, ps, box, s + ps);
            var e := NextGap(points, ps, v);
            var top := TopOutline(points, ps, box, s, e);
            && PairClip(points, v - ps, v, 1, box).Shown? && top != [] && AreaOutline(points, ps, box, s, v, e) != []
            && top[0] == Clamped(PairClip(points, v - ps, v, 1, box).from, box)
            && AreaOutline(points, ps, box, s, v, e)[0] == Start(Point(top[0].x, Bottom(box)))
  {
    hide *;
    FirstTop(points, ps, box, s);
    var v := NextVisible(points, ps, box, s + ps);
    AreaBegins(points, ps, box, s, v, NextGap(points, ps, v));
  }

  lemma FirstTop(points: seq<Coord>, ps: nat, box: Box, s: nat)
    requires ps > 0 && Multiple(s, ps) && NextVisible(points, ps, box, s + ps) < |points|
    ensures var v := NextVisible(points, ps, box, s + ps);
            var e := NextGap(points, ps, v);
            && s + ps <= v <= e && Multiple(e - v, ps) && PairClip(points, v - ps, v, 1, box).Shown?
            && TopOutline(points, ps, box, s, v - ps) == []
  {
    hide *;
    VisibleIsShown(points, ps, box, s + ps);
    WhereItIs(points, ps, box, s);
    NothingBefore(points, ps, box, s, NextVisible(points, ps, box, s + ps) - ps);
  }

  lemma AreaBegins(points: seq<Coord>, ps: nat, box: Box, s: nat, v: nat, e: nat)
    requires ps > 0 && box.Proper() && s + ps <= v <= e && Multiple(e - v, ps)
    requires PairClip(points, v - ps, v, 1, box).Shown? && TopOutline(points, ps, box, s, v - ps) == []
    ensures var top := TopOutline(points, ps, box, s, e);
            && top != [] && top[0] == Clamped(PairClip(points, v - ps, v, 1, box).from, box)
            && AreaOutline(points, ps, box, s, v, e) != []
            && AreaOutline(points, ps, box, s, v, e)[0] == Start(Point(top[0].x, Bottom(box)))
  {
    hide *;
    FirstOfPair(points, v - ps, v, 1, box);
    TopBegins(points, ps, box, s, v, e);
    FirstStroke(points, ps, box, s, v, e);
  }

  lemma TopBegins(points: seq<Coord>, ps: nat, box: Box, s: nat, v: nat, e: nat)
    requires ps > 0 && s + ps <= v <= e && Multiple(e - v, ps)
    requires TopOutline(points, ps, box, s, v - ps) == [] && PairOutline(points, v - ps, v, 1, box) != []
    ensures TopOutline(points, ps, box, s, e) != []
    ensures TopOutline(points, ps, box, s, e)[0] == PairOutline(points, v - ps, v, 1, box)[0]
  {
    hide *;
    var w := TopHolds(points, ps, box, s, v, e);
    FirstOfThree(TopOutline(points, ps, box, s, e), [], PairOutline(points, v - ps, v, 1, box), w);
  }

  lemma FirstOfThree(all: seq<Point>, a: seq<Point>, b: seq<Point>, c: seq<Point>)
    requires all == a + b + c && a == [] && b != []
    ensures all != [] && all[0] == b[0]
  {
  }

  lemma WhereItIs(points: seq<Coord>, ps: nat, box: Box, s: nat)
    requires ps > 0 && Multiple(s, ps) && NextVisible(points, ps, box, s + ps) < |points|
    ensures var v := NextVisible(points, ps, box, s + ps);
            var e := NextGap(points, ps, v);
            s + ps <= v <= e && Multiple(e - v, ps) && Multiple(v - ps - s, ps)
  {
    hide NextVisible, NextGap, Multiple;
    var v := NextVisible(points, ps, box, s + ps);
    MultipleNext(s, ps);
    Reached(points, ps, box, s + ps);
    GapReached(points, ps, v);
    Spaced(s + ps, v, ps);
    Spaced(v, NextGap(points, ps, v), ps);
    assert v - (s + ps) == v - ps - s;
  }

  lemma FirstStroke(points: seq<Coord>, ps: nat, box: Box, s: nat, v: nat, e: nat)
    requires ps > 0 && PairClip(points, v - ps, v, 1, box).Shown?
    ensures AreaOutline(points, ps, box, s, v, e) != []
    ensures AreaOutline(points, ps, box, s, v, e)[0]
         == Start(Point(Clamped(PairClip(points, v - ps, v, 1, box).from, box).x, Bottom(box)))
  {
    hide PairClip, TopOutline, BottomOutline, Lines, Bottom;
  }

  lemma FirstOfPair(points: seq<Coord>, i: int, j: int, ypos: int, box: Box)
    requires box.Proper() && PairClip(points, i, j, ypos, box).Shown?
    ensures var r := PairOutline(points, i, j, ypos, box);
            r != [] && r[0] == Clamped(PairClip(points, i, j, ypos, box).from, box)
  {
    hide Outline, ClippedX, At, Clamped;
    var ts := OutlineInOrder(Pick(points, i, ypos), Pick(points, j, ypos), box);
  }
}
