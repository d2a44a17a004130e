/** The filled area of a line series: a loop that sketches the top of each stretch going forward,
    turns around at the gap after it, sketches the bottom going backward, fills, and resumes
    behind the gap. */
module FlotAreas {
  import opened FlotClips

  /** Canvas commands; Fill closes and fills the current outline. */
  datatype Stroke = Start(p: Point) | Line(p: Point) | Fill

  // ----- the outline of one segment

  /** The segment between the x limits of the box. */
  function ClippedX(a: Point, b: Point, box: Box): Piece {
    match Cut(a, b, XMin(box.xmin))
    case Hidden => Hidden
    case Shown(p, q) => Cut(p, q, XMax(box.xmax))
  }

  /** The part between the y limits, where there is one. */
  function ClippedY(a: Point, b: Point, box: Box): Piece {
    match Cut(a, b, YMin(box.ymin))
    case Hidden => Hidden
    case Shown(p, q) => Cut(p, q, YMax(box.ymax))
  }

  function Clamp(v: real, lo: real, hi: real): real {
    if v < lo then lo else if v > hi then hi else v
  }

  /** A point moved up or down to the box. */
  function Clamped(p: Point, box: Box): Point {
    Point(p.x, Clamp(p.y, box.ymin, box.ymax))
  }

  /** The vertices emitted for a segment already between the x limits: where it leaves the box
      above or below, the outline follows the border. */
  function Vertices(a: Point, b: Point, box: Box): seq<Point> {
    if a.y >= box.ymax && b.y >= box.ymax then [Point(a.x, box.ymax), Point(b.x, box.ymax)]
    else if a.y <= box.ymin && b.y <= box.ymin then [Point(a.x, box.ymin), Point(b.x, box.ymin)]
    else
      match ClippedY(a, b, box)
      case Hidden => []
      case Shown(p, q) =>
        (if p.x != a.x then [Point(a.x, p.y)] else []) + [p, q] + (if q.x != b.x then [q, Point(b.x, q.y)] else [])
  }

  /** What is emitted for a pair of neighbouring points; nothing when it is hidden. */
  function Outline(a: Point, b: Point, box: Box): seq<Point> {
    match ClippedX(a, b, box)
    case Hidden => []
    case Shown(p, q) => Vertices(p, q, box)
  }

  method SketchVertices(x1: real, y1: real, x2: real, y2: real, box: Box) returns (vertices: seq<Point>)
    requires box.Proper()
    ensures vertices == Vertices(Point(x1, y1), Point(x2, y2), box)
  {
    hide At, Crossing, Interpolated, Cut;
    ghost var a, b := Point(x1, y1), Point(x2, y2);
    if y1 >= box.ymax && y2 >= box.ymax {
      return [Point(x1, box.ymax), Point(x2, box.ymax)];
    } else if y1 <= box.ymin && y2 <= box.ymin {
      return [Point(x1, box.ymin), Point(x2, box.ymin)];
    }
    var x1old, x2old := x1, x2;
    var x1', y1', x2', y2' := x1, y1, x2, y2;
    CutCases(a, b, YMin(box.ymin));
    // clip with ymin
    if y1' <= y2' && y1' < box.ymin && y2' >= box.ymin {
      CutAtY(a, b, box.ymin, YMin(box.ymin));
      x1' := Interpolated(box.ymin, y1', y2', x1', x2');
      y1' := box.ymin;
    } else if y2' <= y1' && y2' < box.ymin && y1' >= box.ymin {
      CutAtY(a, b, box.ymin, YMin(box.ymin));
      x2' := Interpolated(box.ymin, y1', y2', x1', x2');
      y2' := box.ymin;
    }
    ghost var p, q := Point(x1', y1'), Point(x2', y2');
    assert Cut(a, b, YMin(box.ymin)) == Shown(p, q);
    CutCases(p, q, YMax(box.ymax));
    // clip with ymax
    if y1' >= y2' && y1' > box.ymax && y2' <= box.ymax {
      CutAtY(p, q, box.ymax, YMax(box.ymax));
      x1' := Interpolated(box.ymax, y1', y2', x1', x2');
      y1' := box.ymax;
    } else if y2' >= y1' && y2' > box.ymax && y1' <= box.ymax {
      CutAtY(p, q, box.ymax, YMax(box.ymax));
      x2' := Interpolated(box.ymax, y1', y2', x1', x2');
      y2' := box.ymax;
    }
    assert ClippedY(a, b, box) == Shown(Point(x1', y1'), Point(x2', y2'));
    vertices := [];
    if x1' != x1old {
      vertices := vertices + [Point(x1old, y1')];
    }
    vertices := vertices + [Point(x1', y1'), Point(x2', y2')];
    if x2' != x2old {
      vertices := vertices + [Point(x2', y2'), Point(x2old, y2')];
    }
  }

  /** The work on one pair: clip the x values, then find the vertices. */
  method SketchPair(x1: real, y1: real, x2: real, y2: real, box: Box) returns (visible: bool, x: real, vertices: seq<Point>)
    requires box.Proper()
    ensures var r := ClippedX(Point(x1, y1), Point(x2, y2), box);
            (visible <==> r.Shown?) && (r.Shown? ==> x == r.from.x)
    ensures vertices == Outline(Point(x1, y1), Point(x2, y2), box)
  {
    hide Cut, Vertices;
    var x1', y1', x2', y2';
    x, vertices := x1, [];
    visible, x1', y1', x2', y2' := ClipXMin(x1, y1, x2, y2, box.xmin);
    if !visible {
      return;
    }
    visible, x1', y1', x2', y2' := ClipXMax(x1', y1', x2', y2', box.xmax);
    if !visible {
      return;
    }
    x := x1';
    vertices := SketchVertices(x1', y1', x2', y2', box);
  }

  // ----- the area of a whole series, declaratively

  /** Reading an array outside its bounds gives nothing. */
  function Get(points: seq<Coord>, i: int): Coord {
    if 0 <= i < |points| then points[i] else Null
  }

  function Val(points: seq<Coord>, i: int): real {
    match Get(points, i)
    case Null => 0.0
    case Num(v) => v
  }

  /** The point at index i, with the top (ypos 1) or the bottom (ypos 2) as its y. */
  function Pick(points: seq<Coord>, i: int, ypos: int): Point {
    Point(Val(points, i), Val(points, i + ypos))
  }

  function PairClip(points: seq<Coord>, i: int, j: int, ypos: int, box: Box): Piece {
    if Get(points, i).Null? || Get(points, j).Null? then Hidden
    else ClippedX(Pick(points, i, ypos), Pick(points, j, ypos), box)
  }

  /** What going from index i to index j emits. */
  function PairOutline(points: seq<Coord>, i: int, j: int, ypos: int, box: Box): seq<Point> {
    if Get(points, i).Null? || Get(points, j).Null? then []
    else Outline(Pick(points, i, ypos), Pick(points, j, ypos), box)
  }

  /** The first index from i on whose pair with its predecessor can be seen, or the length of the
      array. */
  function NextVisible(points: seq<Coord>, ps: nat, box: Box, i: nat): (j: nat)
    requires ps > 0
    ensures i <= j < |points| || j == |points|
    decreases |points| + ps - i
  {
    if i >= |points| then |points|
    else if PairClip(points, i - ps, i, 1, box).Shown? then i
    else NextVisible(points, ps, box, i + ps)
  }

  /** The first gap from i on; the end of the array is one. */
  function NextGap(points: seq<Coord>, ps: nat, i: nat): (j: nat)
    requires ps > 0
    ensures j >= i
    decreases |points| + ps - i
  {
    if Get(points, i).Null? then i else NextGap(points, ps, i + ps)
  }

  /** The tops from index s forward to index e. */
  function TopOutline(points: seq<Coord>, ps: nat, box: Box, s: nat, e: nat): seq<Point>
    requires ps > 0
    decreases e
  {
    if e < s + ps then [] else TopOutline(points, ps, box, s, e - ps) + PairOutline(points, e - ps, e, 1, box)
  }

  /** The bottoms from index e backward to index i. */
  function BottomOutline(points: seq<Coord>, ps: nat, box: Box, e: nat, i: int): seq<Point>
    requires ps > 0
    decreases e - i
  {
    if i >= e then [] else BottomOutline(points, ps, box, e, i + ps) + PairOutline(points, i + ps, i, 2, box)
  }

  function Lines(vertices: seq<Point>): seq<Stroke> {
    seq(|vertices|, i requires 0 <= i < |vertices| => Line(vertices[i]))
  }

  /** The base line: zero, or the border of the box nearest to it. */
  function Bottom(box: Box): real {
    Clamp(0.0, box.ymin, box.ymax)
  }

  /** The closed outline of the area between the indices s and e, whose first visible pair ends
      at v. */
  function AreaOutline(points: seq<Coord>, ps: nat, box: Box, s: nat, v: nat, e: nat): seq<Stroke>
    requires ps > 0
  {
    [Start(Point(Base(points, ps, box, v), Bottom(box)))]
    + Lines(TopOutline(points, ps, box, s, e))
    + Lines(BottomOutline(points, ps, box, e, s))
    + [Fill]
  }

  /** The x at which the pair ending at v becomes visible. */
  function Base(points: seq<Coord>, ps: nat, box: Box, v: nat): real {
    match PairClip(points, v - ps, v, 1, box)
    case Hidden => 0.0
    case Shown(p, _) => p.x
  }

  /** All areas from index s on: one for every stretch between gaps of which something can be
      seen. */
  function Areas(points: seq<Coord>, ps: nat, box: Box, s: nat): seq<Stroke>
    requires ps > 0
    decreases |points| + 4 * ps - s
  {
    var v := NextVisible(points, ps, box, s + ps);
    if v == |points| then []
    else
      var e := NextGap(points, ps, v);
      AreaOutline(points, ps, box, s, v, e) + Areas(points, ps, box, e + ps)
  }

  lemma LinesConcat(u: seq<Point>, v: seq<Point>)
    ensures Lines(u + v) == Lines(u) + Lines(v) && Lines([]) == []
  {
  }

  // ----- what the loop keeps

  /** Before index s everything has been drawn. */
  ghost predicate DoneUpTo(points: seq<Coord>, ps: nat, box: Box, s: nat, done: seq<Stroke>)
    requires ps > 0
  {
    done + Areas(points, ps, box, s) == Areas(points, ps, box, 0)
  }

  /** Going forward, nothing visible since s. */
  ghost predicate Closed(points: seq<Coord>, ps: nat, box: Box, s: nat, i: nat)
    requires ps > 0
  {
    && Multiple(s, ps) && Multiple(i, ps) && s <= i
    && NextVisible(points, ps, box, s + ps) == NextVisible(points, ps, box, i + ps)
    && TopOutline(points, ps, box, s, i) == []
  }

  /** Going forward with an open area; no gap since its first visible pair. */
  ghost predicate Open(points: seq<Coord>, ps: nat, box: Box, s: nat, i: nat, v: nat)
    requires ps > 0
  {
    && Multiple(s, ps) && Multiple(i, ps) && s + ps <= v <= i < |points|
    && v == NextVisible(points, ps, box, s + ps) && Get(points, i).Num?
    && NextGap(points, ps, v) == NextGap(points, ps, i + ps)
  }

  /** Going backward from the gap at e. */
  ghost predicate Turned(points: seq<Coord>, ps: nat, box: Box, s: nat, i: nat, e: nat, v: nat)
    requires ps > 0
  {
    && Multiple(s, ps) && Multiple(i, ps) && Multiple(e, ps) && s <= i <= e && s + ps <= v < |points|
    && v == NextVisible(points, ps, box, s + ps) && e == NextGap(points, ps, v)
  }

  function OpenOutline(points: seq<Coord>, ps: nat, box: Box, s: nat, i: nat, v: nat): seq<Stroke>
    requires ps > 0
  {
    [Start(Point(Base(points, ps, box, v), Bottom(box)))] + Lines(TopOutline(points, ps, box, s, i))
  }

  lemma NextVisibleStep(points: seq<Coord>, ps: nat, box: Box, i: nat)
    requires ps > 0
    ensures i >= |points| ==> NextVisible(points, ps, box, i) == |points|
    ensures i < |points| && PairClip(points, i - ps, i, 1, box).Shown? ==> NextVisible(points, ps, box, i) == i
    ensures PairClip(points, i - ps, i, 1, box).Hidden?
            ==> NextVisible(points, ps, box, i) == NextVisible(points, ps, box, i + ps)
  {
  }

  lemma NextGapStep(points: seq<Coord>, ps: nat, i: nat)
    requires ps > 0
    ensures Get(points, i).Null? ==> NextGap(points, ps, i) == i
    ensures Get(points, i).Num? ==> NextGap(points, ps, i) == NextGap(points, ps, i + ps)
  {
  }

  lemma TopStep(points: seq<Coord>, ps: nat, box: Box, s: nat, i: nat)
    requires ps > 0 && s <= i
    ensures TopOutline(points, ps, box, s, s) == []
    ensures TopOutline(points, ps, box, s, i + ps) ==
            TopOutline(points, ps, box, s, i) + PairOutline(points, i, i + ps, 1, box)
  {
  }

  lemma BottomStep(points: seq<Coord>, ps: nat, box: Box, e: nat, i: int)
    requires ps > 0
    ensures BottomOutline(points, ps, box, e, e) == []
    ensures i < e
            ==> BottomOutline(points, ps, box, e, i)
                == BottomOutline(points, ps, box, e, i + ps) + PairOutline(points, i + ps, i, 2, box)
  {
  }

  lemma PairNothing(points: seq<Coord>, i: int, j: int, ypos: int, box: Box)
    requires PairClip(points, i, j, ypos, box).Hidden?
    ensures PairOutline(points, i, j, ypos, box) == []
  {
  }

  lemma MultipleNext(i: nat, ps: nat)
    requires ps > 0 && Multiple(i, ps)
    ensures Multiple(i + ps, ps) && Multiple(0, ps)
  {
  }

  lemma AreasAt(points: seq<Coord>, ps: nat, box: Box, s: nat)
    requires ps > 0
    ensures var v := NextVisible(points, ps, box, s + ps);
            Areas(points, ps, box, s) ==
            if v == |points| then []
            else AreaOutline(points, ps, box, s, v, NextGap(points, ps, v)) + Areas(points, ps, box, NextGap(points, ps, v) + ps)
  {
  }

  // ----- the steps of the loop

  /** A hidden pair, nothing open. */
  lemma StillClosed(points: seq<Coord>, ps: nat, box: Box, s: nat, i: nat)
    requires ps > 0 && Closed(points, ps, box, s, i)
    requires PairClip(points, i, i + ps, 1, box).Hidden?
    ensures Closed(points, ps, box, s, i + ps)
  {
    hide NextVisible, PairClip, PairOutline, TopOutline, Multiple;
    MultipleNext(i, ps);
    NextVisibleStep(points, ps, box, i + ps);
    TopStep(points, ps, box, s, i);
    PairNothing(points, i, i + ps, 1, box);
  }

  /** The first visible pair opens the area. */
  lemma Opens(points: seq<Coord>, ps: nat, box: Box, s: nat, i: nat)
    requires ps > 0 && Closed(points, ps, box, s, i)
    requires PairClip(points, i, i + ps, 1, box).Shown?
    ensures Open(points, ps, box, s, i + ps, i + ps)
    ensures Base(points, ps, box, i + ps) == PairClip(points, i, i + ps, 1, box).from.x
    ensures OpenOutline(points, ps, box, s, i + ps, i + ps)
            == [Start(Point(Base(points, ps, box, i + ps), Bottom(box)))] + Lines(PairOutline(points, i, i + ps, 1, box))
  {
    hide NextVisible, PairOutline, TopOutline, Multiple, NextGap, Lines;
    MultipleNext(i, ps);
    NextVisibleStep(points, ps, box, i + ps);
    TopStep(points, ps, box, s, i);
    NextGapStep(points, ps, i + ps);
    assert [] + PairOutline(points, i, i + ps, 1, box) == PairOutline(points, i, i + ps, 1, box);
  }

  /** A further pair of an open area. */
  lemma StaysOpen(points: seq<Coord>, ps: nat, box: Box, s: nat, i: nat, v: nat)
    requires ps > 0 && Open(points, ps, box, s, i, v) && Get(points, i + ps).Num?
    ensures Open(points, ps, box, s, i + ps, v)
    ensures OpenOutline(points, ps, box, s, i + ps, v)
            == OpenOutline(points, ps, box, s, i, v) + Lines(PairOutline(points, i, i + ps, 1, box))
  {
    hide NextVisible, PairOutline, TopOutline, Multiple, NextGap, Lines, Base;
    MultipleNext(i, ps);
    TopStep(points, ps, box, s, i);
    NextGapStep(points, ps, i + ps);
    LinesConcat(TopOutline(points, ps, box, s, i), PairOutline(points, i, i + ps, 1, box));
  }

  /** The gap: the sweep turns around. */
  lemma Turns(points: seq<Coord>, ps: nat, box: Box, s: nat, i: nat, v: nat)
    requires ps > 0 && Open(points, ps, box, s, i, v) && Get(points, i + ps).Null?
    ensures Turned(points, ps, box, s, i + ps, i + ps, v)
    ensures OpenOutline(points, ps, box, s, i + ps, v) == OpenOutline(points, ps, box, s, i, v)
    ensures Lines(BottomOutline(points, ps, box, i + ps, i + ps)) == []
  {
    hide NextVisible, TopOutline, Multiple, NextGap, Lines, Base;
    MultipleNext(i, ps);
    TopStep(points, ps, box, s, i);
    NextGapStep(points, ps, i + ps);
    PairNothing(points, i, i + ps, 1, box);
    assert TopOutline(points, ps, box, s, i) + [] == TopOutline(points, ps, box, s, i);
    BottomStep(points, ps, box, i + ps, i + ps);
    LinesConcat([], []);
  }

  /** A pair of the reverse sweep. */
  lemma GoesBack(points: seq<Coord>, ps: nat, box: Box, s: nat, i: nat, e: nat, v: nat)
    requires ps > 0 && Turned(points, ps, box, s, i, e, v) && i != s
    ensures i >= s + ps && Turned(points, ps, box, s, i - ps, e, v)
    ensures Lines(BottomOutline(points, ps, box, e, i - ps))
            == Lines(BottomOutline(points, ps, box, e, i)) + Lines(PairOutline(points, i, i - ps, 2, box))
  {
    hide NextVisible, NextGap, Lines, PairOutline, BottomOutline;
    MultipleGap(s, i, ps);
    BottomStep(points, ps, box, e, i - ps);
    LinesConcat(BottomOutline(points, ps, box, e, i), PairOutline(points, i, i - ps, 2, box));
  }

  /** The sweep is back at its start: the outline is complete and the search resumes behind the
      gap. */
  lemma Fills(points: seq<Coord>, ps: nat, box: Box, s: nat, e: nat, v: nat, done: seq<Stroke>, cmds: seq<Stroke>)
    requires ps > 0 && Turned(points, ps, box, s, s, e, v) && DoneUpTo(points, ps, box, s, done)
    requires cmds == done + OpenOutline(points, ps, box, s, e, v) + Lines(BottomOutline(points, ps, box, e, s)) + [Fill]
    ensures DoneUpTo(points, ps, box, e + ps, cmds) && Closed(points, ps, box, e + ps, e + ps)
  {
    hide NextVisible, NextGap, Lines, PairOutline, BottomOutline, TopOutline, Areas, Base, Multiple;
    AreasAt(points, ps, box, s);
    MultipleNext(e, ps);
    TopStep(points, ps, box, e + ps, e + ps);
    var outline := AreaOutline(points, ps, box, s, v, e);
    assert cmds == done + outline;
    assert cmds + Areas(points, ps, box, e + ps) == done + (outline + Areas(points, ps, box, e + ps));
  }

  /** Behind the array nothing is left. */
  lemma Ends(points: seq<Coord>, ps: nat, box: Box, s: nat, i: nat, done: seq<Stroke>)
    requires ps > 0 && Closed(points, ps, box, s, i) && i >= |points| && DoneUpTo(points, ps, box, s, done)
    ensures done == Areas(points, ps, box, 0)
  {
    hide NextVisible, NextGap, Areas, TopOutline, Multiple;
    AreasAt(points, ps, box, s);
    NextVisibleStep(points, ps, box, i + ps);
  }

  // ----- the loop

  method PlotLineArea(points: seq<Coord>, pointsize: nat, box: Box) returns (cmds: seq<Stroke>)
    requires WellFormed(points, pointsize) && pointsize >= 3 && box.Proper()
    ensures cmds == Areas(points, pointsize, box, 0)
  {
    hide WellFormed, Multiple, Outline, ClippedX, DoneUpTo, Closed, Open, Turned, OpenOutline, Areas, Lines, BottomOutline;
    ghost var P := pointsize;
    cmds := [];
    var most := if 0.0 >= box.ymin then 0.0 else box.ymin;
    var bottom := if most <= box.ymax then most else box.ymax;
    var i: int, ps: int, ypos, segmentStart: int, segmentEnd: int := 0, pointsize, 1, 0, 0;
    var areaOpen := false;
    ghost var done: seq<Stroke> := [];
    ghost var v: nat := 0;
    StartsClosed(points, P, box);
    while true
      invariant 0 <= segmentStart && 0 <= i && DoneUpTo(points, P, box, segmentStart, done)
      invariant (ps == P && ypos == 1 && i <= |points| + 2 * P) || (ps + P == 0 && ypos == 2 && areaOpen)
      invariant ps > 0 && !areaOpen ==> Closed(points, P, box, segmentStart, i) && cmds == done
      invariant ps > 0 && areaOpen ==>
                  Open(points, P, box, segmentStart, i, v) && cmds == done + OpenOutline(points, P, box, segmentStart, i, v)
      invariant ps < 0 ==>
                  && 0 <= segmentEnd <= |points| + P && Turned(points, P, box, segmentStart, i, segmentEnd, v)
                  && cmds == done + OpenOutline(points, P, box, segmentStart, segmentEnd, v)
                             + Lines(BottomOutline(points, P, box, segmentEnd, i))
      decreases |points| + 3 * P - (if ps > 0 then i else segmentEnd), if ps < 0 then i else 0
    {
      if ps > 0 && areaOpen {
        OpenBounds(points, P, box, segmentStart, i, v);
      }
      if ps > 0 && i > |points| + ps {
        break;
      }
      ghost var before, areaWasOpen := cmds, areaOpen;
      ghost var from := i;
      i := i + ps; // ps is negative if going backwards
      var x1, x2 := Get(points, i - ps), Get(points, i);
      if areaOpen {
        if ps > 0 && x1 != Null && x2 == Null {
          // at turning point
          Turns(points, P, box, segmentStart, from, v);
          segmentEnd := i;
          ps := -ps;
          ypos := 2;
          continue;
        }
        if ps < 0 && i == segmentStart + ps {
          // done with the reverse sweep
          cmds := cmds + [Fill];
          Fills(points, P, box, segmentStart, segmentEnd, v, done, cmds);
          done := cmds;
          areaOpen := false;
          ps := -ps;
          ypos := 1;
          segmentStart := segmentEnd + ps;
          i := segmentStart;
          continue;
        }
      }
      if x1 == Null || x2 == Null {
        if ps > 0 {
          StillClosed(points, P, box, segmentStart, from);
        } else {
          GoesBack(points, P, box, segmentStart, from, segmentEnd, v);
          PairNothing(points, from, i, 2, box);
          LinesConcat([], []);
        }
        continue;
      }
      var visible, x, vertices := SketchPair(x1.v, Val(points, i - ps + ypos), x2.v, Val(points, i + ypos), box);
      if !visible {
        if ps > 0 && !areaOpen {
          StillClosed(points, P, box, segmentStart, from);
        } else if ps > 0 {
          StaysOpen(points, P, box, segmentStart, from, v);
          PairNothing(points, from, i, 1, box);
          LinesConcat([], []);
        } else {
          GoesBack(points, P, box, segmentStart, from, segmentEnd, v);
          PairNothing(points, from, i, 2, box);
          LinesConcat([], []);
        }
        continue;
      }
      if ps > 0 && !areaOpen {
        Opens(points, P, box, segmentStart, from);
        v := i;
      } else if ps > 0 {
        StaysOpen(points, P, box, segmentStart, from, v);
      } else {
        GoesBack(points, P, box, segmentStart, from, segmentEnd, v);
      }
      if !areaOpen {
        // open area
        cmds := cmds + [Start(Point(x, bottom))];
        areaOpen := true;
      }
      cmds := cmds + Lines(vertices);
      assert vertices == PairOutline(points, from, i, ypos, box);
      assert areaWasOpen ==> cmds == before + Lines(vertices);
      assert !areaWasOpen ==> cmds == before + ([Start(Point(x, bottom))] + Lines(vertices));
    }
    Ends(points, P, box, segmentStart, i, done);
  }

  lemma OpenBounds(points: seq<Coord>, ps: nat, box: Box, s: nat, i: nat, v: nat)
    requires ps > 0 && Open(points, ps, box, s, i, v)
    ensures i < |points| && Get(points, i).Num?
  {
  }

  lemma StartsClosed(points: seq<Coord>, ps: nat, box: Box)
    requires ps > 0
    ensures Closed(points, ps, box, 0, 0) && DoneUpTo(points, ps, box, 0, [])
  {
  }
}
