/**
 * The combinatorial surface the flow component lives on, as far as the
 * classification consumes it: half-edges, their rotation at a vertex, the
 * vector of each half-edge, and saddle connections crossing half-edges.
 */
module Surfaces {

  /** A half-edge is a nonzero integer; `-h` is the same edge with the opposite orientation. */
  type HalfEdge = int

  /** Surfaces are told apart by an identity (the deformation checks which surface a connection is on). */
  type SurfaceId = int

  /** An exact plane vector. */
  datatype Vector = Vector(x: int, y: int)

  const Zero: Vector := Vector(0, 0)

  function Neg(v: Vector): Vector { Vector(-v.x, -v.y) }

  function Add(a: Vector, b: Vector): Vector { Vector(a.x + b.x, a.y + b.y) }

  /** The answer of `a.ccw(b)`: on which side of `a` the vector `b` lies. */
  datatype Orientation = Clockwise | Collinear | Counterclockwise

  function Ccw(a: Vector, b: Vector): Orientation
  {
    var cross := a.x * b.y - a.y * b.x;
    if cross > 0 then Counterclockwise else if cross < 0 then Clockwise else Collinear
  }

  /** Exchanging the two vectors turns clockwise into counterclockwise and back. */
  lemma CcwSwap(a: Vector, b: Vector)
    ensures Ccw(a, b) == Counterclockwise <==> Ccw(b, a) == Clockwise
    ensures Ccw(a, b) == Collinear <==> Ccw(b, a) == Collinear
  {
    assert a.x * b.y - a.y * b.x == -(b.x * a.y - b.y * a.x);
  }

  /**
   * A point where a saddle connection crosses the interior of a half-edge;
   * `at` ranks the points on one half-edge from its source to its target.
   */
  datatype Intersection = Intersection(halfEdge: HalfEdge, at: int)

  /**
   * A saddle connection ("step"): it leaves the source vertex of `source`, arrives at the
   * source vertex of `target`, and crosses the half-edges listed in `path` on the way.
   * `reversePath` is the path the surface reports for the reversed connection `-step`.
   */
  datatype SaddleConnection = SaddleConnection(
    surface: SurfaceId,
    source: HalfEdge,
    target: HalfEdge,
    vector: Vector,
    path: seq<Intersection>,
    reversePath: seq<Intersection>)

  /** The same edge with the opposite orientation. */
  function Rev(h: HalfEdge): HalfEdge
  {
    -h
  }

  /**
   * `hs` holds the reverse of each of its half-edges.  The quantifier fires
   * only where `Rev(h)` is mentioned, so that it does not feed on its own conclusion.
   */
  ghost predicate ReversalClosed(hs: set<HalfEdge>)
  {
    forall h {:trigger Rev(h)} :: h in hs ==> Rev(h) in hs
  }

  /** The reverses of a set of half-edges. */
  function Reversed(hs: set<HalfEdge>): set<HalfEdge>
  {
    set h | h in hs :: -h
  }

  /** A set equal to its reverses holds the reverse of each of its half-edges. */
  lemma ReversedMember(hs: set<HalfEdge>, h: HalfEdge)
    requires Reversed(hs) == hs && h in hs
    ensures -h in hs
  {
    assert -h in Reversed(hs);
  }

  /**
   * A half-edge surface: `halfEdges` in the order the surface enumerates them,
   * the rotations `previousAtVertex` and `nextAtVertex` around the source vertex,
   * and the vector of every half-edge.
   */
  datatype Surface = Surface(
    halfEdges: seq<HalfEdge>,
    previousAtVertex: map<HalfEdge, HalfEdge>,
    nextAtVertex: map<HalfEdge, HalfEdge>,
    vectors: map<HalfEdge, Vector>)
  {
    function HalfEdgeSet(): set<HalfEdge> { set h | h in halfEdges }

    /** The half-edge before `h` in the rotation around its source vertex. */
    function Previous(h: HalfEdge): HalfEdge
      requires h in previousAtVertex
    {
      previousAtVertex[h]
    }

    /** The half-edge after `h` in the rotation around its source vertex. */
    function Next(h: HalfEdge): HalfEdge
      requires h in nextAtVertex
    {
      nextAtVertex[h]
    }

    /** What the surface guarantees: distinct nonzero half-edges closed under reversal, total rotations. */
    ghost predicate Valid()
    {
      && (forall i, j :: 0 <= i < j < |halfEdges| ==> halfEdges[i] != halfEdges[j])
      && 0 !in halfEdges
      && ReversalClosed(HalfEdgeSet())
      && previousAtVertex.Keys == HalfEdgeSet()
      && nextAtVertex.Keys == HalfEdgeSet()
      && vectors.Keys == HalfEdgeSet()
      && (forall h {:trigger Previous(h)} :: h in previousAtVertex ==> Previous(h) in halfEdges)
      && (forall h {:trigger Next(h)} :: h in nextAtVertex ==> Next(h) in halfEdges)
    }
  }
}
