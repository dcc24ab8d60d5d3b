/** The geometry kernel of src/stores/entities.ts: entity values, line and dot
    construction (apart from drawing an id), point-on-segment and tolerance
    tests, and segment intersection. Coordinates are exact reals. */
module Geometry {
  import opened Utils

  /** Tolerance of isSameNumber: 1e-5. */
  const Epsilon: real := 0.00001

  datatype Point = Point(x: real, y: real)

  /** Coefficients of the carrier line a*x + b*y + c == 0 (`args2`). */
  datatype Coeffs = Coeffs(a: real, b: real, c: real)

  /** The variant-specific part of an entity (`type` with `args`, `args2`). */
  datatype Shape =
    | Line(x1: real, y1: real, x2: real, y2: real, args2: Coeffs)
    | Dot(x: real, y: real)

  /** The presentation payload, opaque to the engine. `FillNone` is what
      intersection markers carry; `RandomStroke` is a piece recoloured with a
      random stroke colour. */
  datatype Style = Unstyled | Given(name: string) | FillNone | RandomStroke

  /** The two entities whose crossing produced a marker, by id. */
  datatype InterRef = InterRef(e1: int, e2: int)

  /** The resolved common fields (`EntityExtra`); `edge` opts into subdivision. */
  datatype Extra = Extra(id: int, zIndex: int, edge: bool, inter: Option<InterRef>, style: Style)

  /** The optional fields a caller passes to a constructor (`PreEntityExtra`). */
  datatype PreExtra = PreExtra(id: Option<int>, zIndex: Option<int>, edge: bool, inter: Option<InterRef>, style: Style)

  datatype Entity = Entity(shape: Shape, ends: seq<Point>, id: int, zIndex: int, edge: bool, inter: Option<InterRef>, style: Style)

  /** A segment from one point to another, as construction receives it. */
  datatype Span = Span(from: Point, to: Point)

  function Abs(r: real): real { if r < 0.0 then -r else r }

  /** The point lies on the carrier line with coefficients `k`. */
  predicate OnCarrier(p: Point, k: Coeffs)
  {
    k.a * p.x + k.b * p.y + k.c == 0.0
  }

  // ---------------------------------------------------------------------------
  // Construction

  /** The second endpoint newLineE uses: with `grid` it keeps the coordinate of
      the larger delta and aligns the other with the first endpoint. */
  function SnapEnd(x1: real, y1: real, x2: real, y2: real, grid: bool): (p: Point)
    ensures !grid ==> p == Point(x2, y2)
    ensures grid ==> p == Point(x1, y2) || p == Point(x2, y1)
    ensures grid ==> Abs(p.x - x1) + Abs(p.y - y1) == Max(Abs(x2 - x1), Abs(y2 - y1))
    ensures grid && Abs(y2 - y1) > Abs(x2 - x1) ==> p.x == x1
    ensures grid && Abs(y2 - y1) <= Abs(x2 - x1) ==> p.y == y1
  {
    if grid then
      var dx := Abs(x2 - x1);
      var dy := Abs(y2 - y1);
      if dy > dx then Point(x1, y2) else Point(x2, y1)
    else
      Point(x2, y2)
  }

  /** The carrier coefficients newLineE precomputes. */
  function LineCoeffs(x1: real, y1: real, x2: real, y2: real): (k: Coeffs)
    ensures OnCarrier(Point(x1, y1), k) && OnCarrier(Point(x2, y2), k)
    ensures Point(x1, y1) != Point(x2, y2) ==> k.a != 0.0 || k.b != 0.0
  {
    Coeffs(y2 - y1, x1 - x2, x2 * y1 - x1 * y2)
  }

  /** Every point of the plane satisfies the carrier equation exactly when it
      is collinear with the two endpoints. */
  lemma CarrierIsCollinearity(x1: real, y1: real, x2: real, y2: real, p: Point)
    ensures OnCarrier(p, LineCoeffs(x1, y1, x2, y2)) <==>
      (x2 - x1) * (p.y - y1) == (y2 - y1) * (p.x - x1)
  {
    var k := LineCoeffs(x1, y1, x2, y2);
    calc {
      k.a * p.x + k.b * p.y + k.c;
      (y2 - y1) * p.x + (x1 - x2) * p.y + (x2 * y1 - x1 * y2);
      (y2 - y1) * (p.x - x1) - (x2 - x1) * (p.y - y1);
    }
  }

  /** The common fields once the id is known: newEntityExtra with `drawn` as
      the value getEntityId would return. */
  function ResolveExtra(pre: PreExtra, drawn: int): Extra
  {
    Extra(
      if pre.id.Some? then pre.id.value else drawn,
      if pre.zIndex.Some? then pre.zIndex.value else 0,
      pre.edge, pre.inter, pre.style)
  }

  function Attach(shape: Shape, ends: seq<Point>, x: Extra): Entity
  {
    Entity(shape, ends, x.id, x.zIndex, x.edge, x.inter, x.style)
  }

  /** newLineE once its id is drawn. */
  function LineEntity(x1: real, y1: real, x2: real, y2: real, grid: bool, x: Extra): (e: Entity)
    ensures e.shape.Line? && |e.ends| == 2
    ensures e.ends[0] == Point(x1, y1) && e.ends[1] == SnapEnd(x1, y1, x2, y2, grid)
    ensures e.ends == [Point(e.shape.x1, e.shape.y1), Point(e.shape.x2, e.shape.y2)]
    ensures e.shape.args2 == LineCoeffs(x1, y1, e.ends[1].x, e.ends[1].y)
    ensures OnCarrier(e.ends[0], e.shape.args2) && OnCarrier(e.ends[1], e.shape.args2)
    ensures grid ==> e.ends[0].x == e.ends[1].x || e.ends[0].y == e.ends[1].y
    ensures e.id == x.id && e.zIndex == x.zIndex && e.edge == x.edge && e.inter == x.inter && e.style == x.style
  {
    var p := SnapEnd(x1, y1, x2, y2, grid);
    Attach(Line(x1, y1, p.x, p.y, LineCoeffs(x1, y1, p.x, p.y)), [Point(x1, y1), p], x)
  }

  /** newDot once its id is drawn. */
  function DotEntity(x: real, y: real, xe: Extra): (e: Entity)
    ensures e.shape.Dot? && e.ends == [Point(e.shape.x, e.shape.y)] && e.ends[0] == Point(x, y)
    ensures e.id == xe.id && e.zIndex == xe.zIndex && e.edge == xe.edge && e.inter == xe.inter && e.style == xe.style
  {
    Attach(Dot(x, y), [Point(x, y)], xe)
  }

  function First(e: Entity): Point requires e.shape.Line? { Point(e.shape.x1, e.shape.y1) }

  function Second(e: Entity): Point requires e.shape.Line? { Point(e.shape.x2, e.shape.y2) }

  // ---------------------------------------------------------------------------
  // Membership and tolerance

  /** isOnLine: the point lies in the segment's bounding box. */
  predicate IsOnLine(x: real, y: real, line: Entity)
    requires line.shape.Line?
  {
    IsBetween(x, line.shape.x1, line.shape.x2) && IsBetween(y, line.shape.y1, line.shape.y2)
  }

  lemma EndsOnLine(line: Entity)
    requires line.shape.Line?
    ensures IsOnLine(line.shape.x1, line.shape.y1, line) && IsOnLine(line.shape.x2, line.shape.y2, line)
  {
  }

  /** isSameNumber: the two numbers differ by less than the tolerance. */
  predicate IsSameNumber(x: real, y: real)
  {
    Abs(x - y) < Epsilon
  }

  predicate IsSamePoint(p1: Point, p2: Point)
  {
    IsSameNumber(p1.x, p2.x) && IsSameNumber(p1.y, p2.y)
  }

  /** Sameness is reflexive and symmetric, but not transitive. */
  lemma SamePointTolerance(p: Point, q: Point)
    ensures IsSamePoint(p, p)
    ensures IsSamePoint(p, q) == IsSamePoint(q, p)
    ensures IsSamePoint(p, q) <==> p.x - Epsilon < q.x < p.x + Epsilon && p.y - Epsilon < q.y < p.y + Epsilon
    ensures IsSameNumber(0.0, 0.000006) && IsSameNumber(0.000006, 0.000012) && !IsSameNumber(0.0, 0.000012)
  {
  }

  /** isEndPoint: some listed end of the entity is the same point. */
  predicate IsEndPoint(point: Point, e: Entity)
  {
    exists i :: 0 <= i < |e.ends| && IsSamePoint(e.ends[i], point)
  }

  lemma EndPointOfLine(point: Point, e: Entity)
    requires e.shape.Line? && e.ends == [First(e), Second(e)]
    ensures IsEndPoint(point, e) <==> IsSamePoint(First(e), point) || IsSamePoint(Second(e), point)
    ensures IsEndPoint(First(e), e) && IsEndPoint(Second(e), e)
  {
    assert e.ends[0] == First(e) && e.ends[1] == Second(e);
  }

  // ---------------------------------------------------------------------------
  // Intersection

  /** The parallel test of calcIntersection (exact comparison). */
  predicate Parallel(k1: Coeffs, k2: Coeffs)
  {
    k1.a * k2.b == k2.a * k1.b
  }

  function Det(k1: Coeffs, k2: Coeffs): real
  {
    k1.a * k2.b - k2.a * k1.b
  }

  /** `y` read off a horizontal line (a == 0): `-c / b`. */
  function HorizontalY(k: Coeffs): (y: real)
    requires k.a == 0.0 && k.b != 0.0
    ensures k.b * y + k.c == 0.0
  {
    - k.c / k.b
  }

  /** `x` solved from a non-horizontal line once `y` is known:
      `-(c + b*y) / a`, the last step of every branch. */
  function XOnLine(k: Coeffs, y: real): (x: real)
    requires k.a != 0.0
    ensures OnCarrier(Point(x, y), k)
  {
    - (k.c + k.b * y) / k.a
  }

  /** Cramer's rule for `y`. */
  function CramerY(k1: Coeffs, k2: Coeffs): (y: real)
    requires Det(k1, k2) != 0.0
    ensures Det(k1, k2) * y == k2.a * k1.c - k1.a * k2.c
  {
    (k2.a * k1.c - k1.a * k2.c) / Det(k1, k2)
  }

  /** The solution calcIntersection computes, with its branches for a
      horizontal first or second line: the meeting point of the two carrier
      lines. Its well-formedness is the proof that no division is by zero. */
  function Solve(k1: Coeffs, k2: Coeffs): (p: Point)
    requires !Parallel(k1, k2)
    ensures OnCarrier(p, k1) && OnCarrier(p, k2)
  {
    if k1.a == 0.0 then
      NonZeroFactors(k2.a, k1.b);
      var y := HorizontalY(k1);
      Point(XOnLine(k2, y), y)
    else if k2.a == 0.0 then
      NonZeroFactors(k1.a, k2.b);
      var y := HorizontalY(k2);
      Point(XOnLine(k1, y), y)
    else
      var y := CramerY(k1, k2);
      var x := XOnLine(k2, y);
      GeneralBranchSolves(k1, k2, x, y);
      Point(x, y)
  }

  lemma NonZeroFactors(u: real, v: real)
    requires u * v != 0.0
    ensures u != 0.0 && v != 0.0
  {
  }

  /** The general branch: `y` by Cramer's rule and `x` from the second line
      also satisfy the first line. */
  lemma GeneralBranchSolves(k1: Coeffs, k2: Coeffs, x: real, y: real)
    requires k2.a != 0.0 && Det(k1, k2) != 0.0
    requires Det(k1, k2) * y == k2.a * k1.c - k1.a * k2.c
    requires OnCarrier(Point(x, y), k2)
    ensures OnCarrier(Point(x, y), k1)
  {
    var a1, b1, c1 := k1.a, k1.b, k1.c;
    var a2, b2, c2 := k2.a, k2.b, k2.c;
    assert (a1 * b2 - a2 * b1) * y == a2 * c1 - a1 * c2;
    assert a2 * x == - (c2 + b2 * y);
    calc {
      a2 * (a1 * x + b1 * y + c1);
      a1 * (a2 * x) + a2 * b1 * y + a2 * c1;
      - a1 * c2 - a1 * b2 * y + a2 * b1 * y + a2 * c1;
      (a2 * c1 - a1 * c2) - (a1 * b2 - a2 * b1) * y;
      0.0;
    }
    ProductZero(a2, a1 * x + b1 * y + c1);
  }

  lemma ProductZero(u: real, v: real)
    requires u != 0.0 && u * v == 0.0
    ensures v == 0.0
  {
  }

  /** Two lines that are not parallel meet in exactly one point. */
  lemma CarriersMeetOnce(k1: Coeffs, k2: Coeffs, p: Point, q: Point)
    requires !Parallel(k1, k2)
    requires OnCarrier(p, k1) && OnCarrier(p, k2) && OnCarrier(q, k1) && OnCarrier(q, k2)
    ensures p == q
  {
    var dx, dy := p.x - q.x, p.y - q.y;
    assert k1.a * dx + k1.b * dy == 0.0;
    assert k2.a * dx + k2.b * dy == 0.0;
    calc {
      Det(k1, k2) * dx;
      k2.b * (k1.a * dx + k1.b * dy) - k1.b * (k2.a * dx + k2.b * dy);
      0.0;
    }
    calc {
      Det(k1, k2) * dy;
      k1.a * (k2.a * dx + k2.b * dy) - k2.a * (k1.a * dx + k1.b * dy);
      0.0;
    }
    ProductZero(Det(k1, k2), dx);
    ProductZero(Det(k1, k2), dy);
  }

  /** calcIntersection: null unless both are lines, null for parallel lines,
      otherwise the meeting point of the carriers if it lies in both bounding
      boxes. */
  function CalcIntersection(e1: Entity, e2: Entity): (r: Option<Point>)
    ensures !(e1.shape.Line? && e2.shape.Line?) ==> r.None?
    ensures e1.shape.Line? && e2.shape.Line? && Parallel(e1.shape.args2, e2.shape.args2) ==> r.None?
    ensures r.Some? ==>
      e1.shape.Line? && e2.shape.Line? &&
      OnCarrier(r.value, e1.shape.args2) && OnCarrier(r.value, e2.shape.args2) &&
      IsOnLine(r.value.x, r.value.y, e1) && IsOnLine(r.value.x, r.value.y, e2)
  {
    if e1.shape.Line? && e2.shape.Line? then
      if Parallel(e1.shape.args2, e2.shape.args2) then None
      else
        var p := Solve(e1.shape.args2, e2.shape.args2);
        if IsOnLine(p.x, p.y, e1) && IsOnLine(p.x, p.y, e2) then Some(p) else None
    else
      None
  }

  /** calcIntersection misses no crossing: a point on both carriers and in
      both bounding boxes of two non-parallel lines is what it returns. */
  lemma CalcIntersectionComplete(e1: Entity, e2: Entity, q: Point)
    requires e1.shape.Line? && e2.shape.Line? && !Parallel(e1.shape.args2, e2.shape.args2)
    requires OnCarrier(q, e1.shape.args2) && OnCarrier(q, e2.shape.args2)
    requires IsOnLine(q.x, q.y, e1) && IsOnLine(q.x, q.y, e2)
    ensures CalcIntersection(e1, e2) == Some(q)
  {
    CarriersMeetOnce(e1.shape.args2, e2.shape.args2, Solve(e1.shape.args2, e2.shape.args2), q);
  }

  /** calcIntersection does not depend on the order of its arguments. */
  lemma CalcIntersectionSymmetric(e1: Entity, e2: Entity)
    ensures CalcIntersection(e1, e2) == CalcIntersection(e2, e1)
  {
    if e1.shape.Line? && e2.shape.Line? && !Parallel(e1.shape.args2, e2.shape.args2) {
      var k1, k2 := e1.shape.args2, e2.shape.args2;
      assert !Parallel(k2, k1);
      CarriersMeetOnce(k1, k2, Solve(k1, k2), Solve(k2, k1));
    }
  }

  // ---------------------------------------------------------------------------
  // Subdivision geometry

  /** The spans multiSplitEntity produces when it cuts the segment from `a` to
      `b` at `ps` in turn: each cut of the remainder (u, v) at p finishes
      (u, p) and leaves (v, p) as the new remainder, because splitEntity builds
      its second piece from the remainder's second endpoint to p. */
  function SplitChain(a: Point, b: Point, ps: seq<Point>): (r: seq<Span>)
    ensures |r| == |ps| + 1
    decreases |ps|
  {
    if ps == [] then [Span(a, b)]
    else [Span(a, ps[0])] + SplitChain(b, ps[0], ps[1..])
  }

  /** The trail of points a, b, p1, ..., pk that the chain walks. */
  function Trail(a: Point, b: Point, ps: seq<Point>): seq<Point>
  {
    [a, b] + ps
  }

  /** Closed form of the chain: piece i < k runs from the i-th to the
      (i+2)-th point of the trail, and the last piece from the k-th to the
      (k+1)-th. So with one cut the pieces are (a, p) and (b, p), and from two
      cuts on consecutive pieces skip one point of the trail. */
  lemma {:induction false} SplitChainAt(a: Point, b: Point, ps: seq<Point>)
    ensures forall i :: 0 <= i < |ps| ==>
      SplitChain(a, b, ps)[i] == Span(Trail(a, b, ps)[i], Trail(a, b, ps)[i + 2])
    ensures SplitChain(a, b, ps)[|ps|] == Span(Trail(a, b, ps)[|ps|], Trail(a, b, ps)[|ps| + 1])
    decreases |ps|
  {
    if ps != [] {
      var t, t' := Trail(a, b, ps), Trail(b, ps[0], ps[1..]);
      assert t' == t[1..];
      SplitChainAt(b, ps[0], ps[1..]);
      forall i | 0 <= i < |ps|
        ensures SplitChain(a, b, ps)[i] == Span(t[i], t[i + 2])
      {
        if i > 0 {
          assert SplitChain(a, b, ps)[i] == SplitChain(b, ps[0], ps[1..])[i - 1];
        }
      }
      assert SplitChain(a, b, ps)[|ps|] == SplitChain(b, ps[0], ps[1..])[|ps| - 1];
    }
  }

  /** With a single cut point p on the carrier of (a, b) the two pieces share
      exactly p, start at the two original ends, and stay on the carrier. */
  lemma SplitOnceStaysOnCarrier(a: Point, b: Point, p: Point)
    requires OnCarrier(p, LineCoeffs(a.x, a.y, b.x, b.y))
    ensures SplitChain(a, b, [p]) == [Span(a, p), Span(b, p)]
    ensures forall s :: s in SplitChain(a, b, [p]) ==>
      OnCarrier(s.from, LineCoeffs(a.x, a.y, b.x, b.y)) && OnCarrier(s.to, LineCoeffs(a.x, a.y, b.x, b.y))
  {
    assert SplitChain(b, p, []) == [Span(b, p)];
  }

  /** A cut point met twice gives a piece of zero length: the second cut
      splits the remainder (b, p) at its own end p. */
  lemma SplitChainRepeatedPoint(a: Point, b: Point, p: Point)
    ensures SplitChain(a, b, [p, p]) == [Span(a, p), Span(b, p), Span(p, p)]
  {
    assert [p, p][1..] == [p];
    assert SplitChain(b, p, [p]) == [Span(b, p)] + SplitChain(p, p, []);
  }

  /** The chain follows the order of the cut points, not their order along
      the segment: cutting (0, 0)-(10, 0) first at (7, 0) and then at (3, 0)
      gives (0, 0)-(7, 0), (10, 0)-(3, 0) and (7, 0)-(3, 0), and the first two
      pieces overlap from x = 3 to x = 7. */
  lemma SplitChainOutOfOrder()
    ensures var r := SplitChain(Point(0.0, 0.0), Point(10.0, 0.0), [Point(7.0, 0.0), Point(3.0, 0.0)]);
      && r == [Span(Point(0.0, 0.0), Point(7.0, 0.0)), Span(Point(10.0, 0.0), Point(3.0, 0.0)),
               Span(Point(7.0, 0.0), Point(3.0, 0.0))]
      && IsBetween(5.0, r[0].from.x, r[0].to.x) && IsBetween(5.0, r[1].from.x, r[1].to.x)
  {
  }
}
