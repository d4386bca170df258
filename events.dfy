/**
 * The events a perimeter step leaves on a half-edge, and the order in which
 * they sit along that half-edge.
 */
module Events {
  import opened Surfaces
  import opened Sorting

  /**
   * `Touching`: the step starts (`out`) or ends (not `out`) at the source vertex of
   * the half-edge, arriving or leaving along `vector`.  `Crossing`: the step passes
   * through the half-edge at `intersection`, leaving it (`out`) or entering it.
   * `n` numbers the events of one step from 1 along the step.
   */
  datatype Event =
    | Touching(n: nat, step: SaddleConnection, vector: Vector, out: bool)
    | Crossing(n: nat, step: SaddleConnection, intersection: Intersection, out: bool)

  /** Ties between two events of one kind: `out` before not `out`, otherwise no answer. */
  function OutOrder(a: bool, b: bool): Order
  {
    if a && !b then Before else if !a && b then After else Ambiguous
  }

  /**
   * What `a < b` evaluates to under the hand-written `__lt__` of Touching and
   * Crossing, `Ambiguous` where it reaches its `assert False`.
   */
  function Precedes(a: Event, b: Event): (r: Order)
    ensures r == Ambiguous <==>
              && a.Touching? == b.Touching?
              && a.out == b.out
              && (if a.Touching? then Ccw(a.vector, b.vector) == Collinear else a.intersection.at == b.intersection.at)
  {
    match a
    case Touching(_, _, v, o) =>
      (match b
       case Crossing(_, _, _, _) => Before
       case Touching(_, _, w, p) =>
         var c := Ccw(v, w);
         if c == Counterclockwise then Before else if c == Clockwise then After else OutOrder(o, p))
    case Crossing(_, _, i, o) =>
      (match b
       case Touching(_, _, _, _) => After
       case Crossing(_, _, j, p) =>
         if i.at < j.at then Before else if j.at < i.at then After else OutOrder(o, p))
  }

  /** `a < b` and `b < a` always disagree, and a tie is a tie both ways. */
  lemma PrecedesAntisymmetric()
    ensures Antisymmetric(Precedes)
  {
    forall a: Event, b: Event
      ensures Precedes(a, b) == Before <==> Precedes(b, a) == After
    {
      if a.Touching? && b.Touching? {
        CcwSwap(a.vector, b.vector);
      }
    }
  }

  /** No event precedes itself: comparing an event with itself is a tie. */
  lemma PrecedesIrreflexive(e: Event)
    ensures Precedes(e, e) == Ambiguous
  {
  }

  predicate HasCrossing(events: seq<Event>)
  {
    exists e :: e in events && e.Crossing?
  }

  /** Lists filed per half-edge, for half-edges closed under reversal, in which `h` is crossed exactly when `-h` is. */
  ghost predicate CrossingSymmetric(touches: map<HalfEdge, seq<Event>>)
  {
    forall h {:trigger Rev(h)} :: h in touches ==>
      Rev(h) in touches && (HasCrossing(touches[h]) <==> HasCrossing(touches[Rev(h)]))
  }

  /** The order of two crossings on one half-edge: by position, then leaving before entering. */
  predicate CrossesBefore(a: Event, b: Event)
    requires a.Crossing? && b.Crossing?
  {
    a.intersection.at < b.intersection.at || (a.intersection.at == b.intersection.at && a.out && !b.out)
  }

  /** In a list ordered by `Precedes`, every touching comes before every crossing. */
  lemma {:induction false} TouchingsFirst(s: seq<Event>, i: nat, j: nat)
    requires Ordered(s, Precedes)
    requires i < j < |s| && s[j].Touching?
    ensures s[i].Touching?
    decreases j - i
  {
    assert Precedes(s[j - 1], s[j]) == Before;
    if i < j - 1 {
      TouchingsFirst(s, i, j - 1);
    }
  }

  /**
   * In a list ordered by `Precedes`, any two crossings are in position order,
   * a leaving crossing first where two share a position.
   */
  lemma {:induction false} CrossingsInPositionOrder(s: seq<Event>, i: nat, j: nat)
    requires Ordered(s, Precedes)
    requires i < j < |s| && s[i].Crossing? && s[j].Crossing?
    ensures CrossesBefore(s[i], s[j])
    decreases j - i
  {
    if s[j - 1].Touching? {
      if i < j - 1 {
        TouchingsFirst(s, i, j - 1);
      }
      assert false;
    }
    assert Precedes(s[j - 1], s[j]) == Before;
    if i < j - 1 {
      CrossingsInPositionOrder(s, i, j - 1);
    }
  }

  /**
   * Two neighbouring touchings in a list ordered by `Precedes`: the second lies
   * counterclockwise of the first, or they are collinear and the first leaves
   * while the second arrives.
   */
  lemma TouchingsByAngle(s: seq<Event>, k: nat)
    requires Ordered(s, Precedes)
    requires 0 < k < |s| && s[k - 1].Touching? && s[k].Touching?
    ensures Ccw(s[k - 1].vector, s[k].vector) == Counterclockwise
         || (Ccw(s[k - 1].vector, s[k].vector) == Collinear && s[k - 1].out && !s[k].out)
  {
    assert Precedes(s[k - 1], s[k]) == Before;
  }
}
