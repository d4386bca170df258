/**
 * The flow component as the classification consumes it, the part of its
 * perimeter that is drawn, and the steps that perimeter expands to.
 */
module Perimeters {
  import opened Errors
  import opened Surfaces
  import opened Deformations
  import opened Sequences

  type ComponentId = int

  /**
   * One saddle connection on the perimeter of a component: whether it is
   * vertical, whether the flow decomposition marks it as a boundary, the
   * component it bounds and the component on the other side (that of its reverse).
   */
  datatype PerimeterCurve = PerimeterCurve(
    connection: SaddleConnection,
    vertical: bool,
    boundary: bool,
    component: ComponentId,
    reverseComponent: ComponentId)

  datatype FlowComponent = FlowComponent(id: ComponentId, cylinder: bool, perimeter: seq<PerimeterCurve>)

  /** The curves kept when the component is a cylinder or the curve is marked as a boundary. */
  function BoundaryCurves(curves: seq<PerimeterCurve>, cylinder: bool): (r: seq<PerimeterCurve>)
    ensures forall c :: c in r <==> c in curves && (cylinder || c.boundary)
    ensures IsSubsequence(r, curves)
    ensures cylinder ==> r == curves
  {
    if curves == [] then []
    else if cylinder || curves[0].boundary then [curves[0]] + BoundaryCurves(curves[1..], cylinder)
    else BoundaryCurves(curves[1..], cylinder)
  }

  /** The perimeter the encoder draws: all of it for a cylinder, otherwise the curves marked as boundary. */
  function Perimeter(component: FlowComponent): (r: seq<PerimeterCurve>)
    ensures forall c :: c in r <==> c in component.perimeter && (component.cylinder || c.boundary)
    ensures IsSubsequence(r, component.perimeter)
  {
    BoundaryCurves(component.perimeter, component.cylinder)
  }

  /** The curves kept when the component is a cylinder or the other side belongs to another component. */
  function SeparatingCurves(curves: seq<PerimeterCurve>, cylinder: bool, id: ComponentId): (r: seq<PerimeterCurve>)
    ensures forall c :: c in r <==> c in curves && (cylinder || c.reverseComponent != id)
    ensures IsSubsequence(r, curves)
    ensures cylinder ==> r == curves
  {
    if curves == [] then []
    else if cylinder || curves[0].reverseComponent != id then [curves[0]] + SeparatingCurves(curves[1..], cylinder, id)
    else SeparatingCurves(curves[1..], cylinder, id)
  }

  /** The perimeter the older map encoding draws: curves whose reverse lies in another component. */
  function LegacyPerimeter(component: FlowComponent): (r: seq<PerimeterCurve>)
    ensures forall c :: c in r <==> c in component.perimeter && (component.cylinder || c.reverseComponent != component.id)
    ensures IsSubsequence(r, component.perimeter)
  {
    SeparatingCurves(component.perimeter, component.cylinder, component.id)
  }

  /** A step of the pulled-back perimeter together with the perimeter curve it comes from. */
  datatype PlacedStep = PlacedStep(curve: PerimeterCurve, step: SaddleConnection)

  function Place(curve: PerimeterCurve, steps: seq<SaddleConnection>): (r: seq<PlacedStep>)
    ensures |r| == |steps|
    ensures forall k :: 0 <= k < |steps| ==> r[k] == PlacedStep(curve, steps[k])
  {
    seq(|steps|, k requires 0 <= k < |steps| => PlacedStep(curve, steps[k]))
  }

  /** The number of steps the curves pull back to, all together (a curve that does not pull back counts none). */
  function StepCount(deformation: Option<Deformation>, curves: seq<PerimeterCurve>): nat
  {
    if curves == [] then 0
    else
      var here := match Pullback(deformation, curves[0].connection)
        case Success(steps) => |steps|
        case Failure(_) => 0;
      here + StepCount(deformation, curves[1..])
  }

  /**
   * Every (curve, step) pair of the perimeter in nested order: curve by curve,
   * and within a curve the steps of its pullback.
   */
  function Steps(deformation: Option<Deformation>, curves: seq<PerimeterCurve>): (r: Result<seq<PlacedStep>>)
    ensures r.Success? <==> forall c :: c in curves ==> Pullback(deformation, c.connection).Success?
    ensures r.Success? ==> forall p :: p in r.value ==>
              p.curve in curves && p.step in Pullback(deformation, p.curve.connection).value
    ensures r.Success? ==> forall c, s :: c in curves && s in Pullback(deformation, c.connection).value ==>
              PlacedStep(c, s) in r.value
    ensures r.Success? ==> |r.value| == StepCount(deformation, curves)
  {
    if curves == [] then Success([])
    else
      var steps :- Pullback(deformation, curves[0].connection);
      var rest :- Steps(deformation, curves[1..]);
      Success(Place(curves[0], steps) + rest)
  }

  /** One curve off the front: its steps, then the steps of the rest. */
  lemma StepsUnfold(deformation: Option<Deformation>, curves: seq<PerimeterCurve>)
    requires Steps(deformation, curves).Success? && 0 < |curves|
    ensures Pullback(deformation, curves[0].connection).Success? && Steps(deformation, curves[1..]).Success?
    ensures Steps(deformation, curves).value
            == Place(curves[0], Pullback(deformation, curves[0].connection).value) + Steps(deformation, curves[1..]).value
  {
  }

  /** When a run of curves pulls back, so do both of its parts. */
  lemma StepsParts(deformation: Option<Deformation>, a: seq<PerimeterCurve>, b: seq<PerimeterCurve>)
    requires Steps(deformation, a + b).Success?
    ensures Steps(deformation, a).Success? && Steps(deformation, b).Success?
  {
    assert forall c :: c in a ==> c in a + b;
    assert forall c :: c in b ==> c in a + b;
  }

  /** The steps of two runs of curves are the steps of the first run, then those of the second. */
  lemma {:induction false} StepsAppend(deformation: Option<Deformation>, a: seq<PerimeterCurve>, b: seq<PerimeterCurve>)
    requires Steps(deformation, a + b).Success?
    ensures Steps(deformation, a).Success? && Steps(deformation, b).Success?
    ensures Steps(deformation, a + b).value == Steps(deformation, a).value + Steps(deformation, b).value
  {
    StepsParts(deformation, a, b);
    if a == [] {
      assert a + b == b;
    } else {
      var ab := a + b;
      ConcatTail(a, b);
      StepsUnfold(deformation, ab);
      StepsUnfold(deformation, a);
      StepsAppend(deformation, a[1..], b);
      var first := Place(a[0], Pullback(deformation, a[0].connection).value);
      var mid := Steps(deformation, a[1..]).value;
      var last := Steps(deformation, b).value;
      assert Steps(deformation, ab).value == first + (mid + last);
      ConcatAssociative(first, mid, last);
    }
  }

  lemma ConcatAssociative<T>(x: seq<T>, y: seq<T>, z: seq<T>)
    ensures x + (y + z) == (x + y) + z
  {
  }

  lemma SplitAt<T>(x: seq<T>, i: nat)
    requires i < |x|
    ensures x == x[..i] + x[i..] && x[i..][0] == x[i] && x[i..][1..] == x[i + 1..]
  {
  }

  lemma ConcatTail<T>(x: seq<T>, y: seq<T>)
    requires x != []
    ensures (x + y)[0] == x[0] && (x + y)[1..] == x[1..] + y
  {
  }

  /**
   * The entry for step `k` of curve `i` sits after the steps of the curves
   * before it: the list is curve by curve, each curve's steps in order.
   */
  lemma StepsAt(deformation: Option<Deformation>, curves: seq<PerimeterCurve>, i: nat, k: nat)
    requires Steps(deformation, curves).Success?
    requires i < |curves| && k < |Pullback(deformation, curves[i].connection).value|
    ensures StepCount(deformation, curves[..i]) + k < |Steps(deformation, curves).value|
    ensures Steps(deformation, curves).value[StepCount(deformation, curves[..i]) + k]
            == PlacedStep(curves[i], Pullback(deformation, curves[i].connection).value[k])
  {
    SplitAt(curves, i);
    StepsParts(deformation, curves[..i], curves[i..]);
    StepsUnfold(deformation, curves[i..]);
    var before := Steps(deformation, curves[..i]).value;
    var first := Place(curves[i], Pullback(deformation, curves[i].connection).value);
    var after := Steps(deformation, curves[i + 1..]).value;
    assert Steps(deformation, curves).value == before + (first + after) by {
      StepsAppend(deformation, curves[..i], curves[i..]);
    }
    PlacedAfter(before, first + after, k);
    PlacedBefore(first, after, k);
  }

  /** An entry of the second part of a concatenation, counted from its start. */
  lemma PlacedAfter<T>(a: seq<T>, b: seq<T>, p: nat)
    requires p < |b|
    ensures |a| + p < |a + b| && (a + b)[|a| + p] == b[p]
  {
  }

  /** An entry of the first part of a concatenation. */
  lemma PlacedBefore<T>(a: seq<T>, b: seq<T>, p: nat)
    requires p < |a|
    ensures (a + b)[p] == a[p]
  {
  }
}
