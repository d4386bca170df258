/**
 * The encoded flow component handed to the widget: whether it is a
 * cylinder, one record per step of the pulled-back perimeter listing where
 * the events of that step sit in the per-half-edge lists, and the half-edges
 * drawn as interior.  Two encodings share the pipeline: the encoder's, which
 * draws the curves marked as boundary, and the older map encoding, which
 * draws the curves whose reverse lies in another component.
 */
module Assembly {
  import opened Errors
  import opened Surfaces
  import opened Sorting
  import opened Events
  import opened Deformations
  import opened Sequences
  import opened Perimeters
  import opened EventIndex
  import opened RegionClassifier

  /** A half-edge drawn as interior: both of its ends inside and no crossing on it. */
  predicate Interior(h: HalfEdge, labels: Labels, touches: map<HalfEdge, seq<Event>>)
    requires h in labels.start && h in labels.end && h in touches
  {
    labels.start[h] && labels.end[h] && !HasCrossing(touches[h])
  }

  /** The interior half-edges among `hs`, in the order of `hs`. */
  function Inside(hs: seq<HalfEdge>, labels: Labels, touches: map<HalfEdge, seq<Event>>): (r: seq<HalfEdge>)
    requires forall h :: h in hs ==> h in labels.start && h in labels.end && h in touches
    ensures forall h :: h in r <==> h in hs && Interior(h, labels, touches)
    ensures IsSubsequence(r, hs)
  {
    if hs == [] then []
    else if Interior(hs[0], labels, touches) then
      var rest := Inside(hs[1..], labels, touches);
      assert ([hs[0]] + rest)[1..] == rest;
      [hs[0]] + rest
    else Inside(hs[1..], labels, touches)
  }

  /**
   * The tuple `(n, halfEdge, index)`: the event numbered `n` along its step
   * is the entry at position `index` of the sorted list of `halfEdge`.
   */
  datatype TouchRef = TouchRef(n: nat, halfEdge: HalfEdge, index: nat)

  /** The order Python gives these tuples: lexicographic. */
  predicate RefBelow(a: TouchRef, b: TouchRef)
    ensures RefBelow(a, b) ==> a != b && a.n <= b.n
  {
    || a.n < b.n
    || (a.n == b.n && a.halfEdge < b.halfEdge)
    || (a.n == b.n && a.halfEdge == b.halfEdge && a.index < b.index)
  }

  /** Lexicographic order on tuples is a strict total order. */
  lemma RefBelowStrictTotal(a: TouchRef, b: TouchRef, c: TouchRef)
    ensures !RefBelow(a, a)
    ensures RefBelow(a, b) ==> !RefBelow(b, a)
    ensures a != b ==> RefBelow(a, b) || RefBelow(b, a)
    ensures RefBelow(a, b) && RefBelow(b, c) ==> RefBelow(a, c)
  {
  }

  ghost predicate Ascending(s: seq<TouchRef>)
  {
    forall i, j :: 0 <= i < j < |s| ==> s[i] == s[j] || RefBelow(s[i], s[j])
  }

  ghost predicate Distinct<T>(s: seq<T>)
  {
    forall i, j :: 0 <= i < j < |s| ==> s[i] != s[j]
  }

  /** `x` put before the first entry of `s` it does not exceed. */
  function InsertRef(x: TouchRef, s: seq<TouchRef>): (r: seq<TouchRef>)
    requires Ascending(s)
    ensures multiset(r) == multiset(s) + multiset{x}
    ensures forall y :: y in r <==> y in s || y == x
    ensures Ascending(r)
  {
    if s == [] then [x]
    else if x == s[0] || RefBelow(x, s[0]) then [x] + s
    else
      var rest := InsertRef(x, s[1..]);
      assert s == [s[0]] + s[1..];
      HeadBelow(s);
      AscendingCons(s[0], rest);
      [s[0]] + rest
  }

  /** The head of an ascending list does not exceed any later entry. */
  lemma HeadBelow(s: seq<TouchRef>)
    requires Ascending(s) && s != []
    ensures forall y :: y in s[1..] ==> s[0] == y || RefBelow(s[0], y)
  {
    forall y | y in s[1..]
      ensures s[0] == y || RefBelow(s[0], y)
    {
      var m :| 0 <= m < |s[1..]| && s[1..][m] == y;
      assert s[m + 1] == y;
    }
  }

  /** An entry that does not exceed any entry of an ascending list can go in front of it. */
  lemma AscendingCons(a: TouchRef, rest: seq<TouchRef>)
    requires Ascending(rest)
    requires forall y :: y in rest ==> a == y || RefBelow(a, y)
    ensures Ascending([a] + rest)
  {
    forall i, j | 0 <= i < j < |[a] + rest|
      ensures ([a] + rest)[i] == ([a] + rest)[j] || RefBelow(([a] + rest)[i], ([a] + rest)[j])
    {
      if i == 0 {
        assert ([a] + rest)[j] == rest[j - 1] && rest[j - 1] in rest;
      } else {
        assert ([a] + rest)[i] == rest[i - 1] && ([a] + rest)[j] == rest[j - 1];
      }
    }
  }

  /** `sorted` on a list of tuples: the same tuples in ascending order. */
  function SortRefs(xs: seq<TouchRef>): (r: seq<TouchRef>)
    ensures multiset(r) == multiset(xs)
    ensures forall x :: x in r <==> x in xs
    ensures Ascending(r)
  {
    if xs == [] then []
    else
      assert xs == [xs[0]] + xs[1..];
      var r := InsertRef(xs[0], SortRefs(xs[1..]));
      assert forall x :: x in r <==> x in multiset(r);
      r
  }

  /** The event at position `x.index` of the list of `x.halfEdge` belongs to `step` and is numbered `x.n`. */
  ghost predicate Refers(touches: map<HalfEdge, seq<Event>>, step: SaddleConnection, x: TouchRef)
  {
    && x.halfEdge in touches
    && x.index < |touches[x.halfEdge]|
    && touches[x.halfEdge][x.index].step == step
    && touches[x.halfEdge][x.index].n == x.n
  }

  /** The tuples of the events of `step` in `events`, the list of `h`, from position `i` on. */
  function RefsIn(h: HalfEdge, events: seq<Event>, step: SaddleConnection, i: nat): (r: seq<TouchRef>)
    requires i <= |events|
    ensures forall x :: x in r <==>
              && x.halfEdge == h && i <= x.index < |events|
              && events[x.index].step == step && events[x.index].n == x.n
    decreases |events| - i
  {
    if i == |events| then []
    else (if events[i].step == step then [TouchRef(events[i].n, h, i)] else []) + RefsIn(h, events, step, i + 1)
  }

  /** The tuples of the events of `step` over the lists of the half-edges `hs`. */
  function Collected(hs: seq<HalfEdge>, touches: map<HalfEdge, seq<Event>>, step: SaddleConnection): (r: seq<TouchRef>)
    requires forall h :: h in hs ==> h in touches
    ensures forall x :: x in r <==> x.halfEdge in hs && Refers(touches, step, x)
  {
    if hs == [] then []
    else RefsIn(hs[0], touches[hs[0]], step, 0) + Collected(hs[1..], touches, step)
  }

  /** Inserting a tuple not yet present keeps the tuples distinct. */
  lemma {:induction false} InsertRefDistinct(x: TouchRef, s: seq<TouchRef>)
    requires Ascending(s) && Distinct(s) && x !in s
    ensures Distinct(InsertRef(x, s))
  {
    if s != [] && !(x == s[0] || RefBelow(x, s[0])) {
      assert s == [s[0]] + s[1..];
      InsertRefDistinct(x, s[1..]);
      var rest := InsertRef(x, s[1..]);
      assert InsertRef(x, s) == [s[0]] + rest;
      assert s[0] !in rest;
    }
  }

  /** Sorting distinct tuples leaves them distinct. */
  lemma {:induction false} SortRefsDistinct(xs: seq<TouchRef>)
    requires Distinct(xs)
    ensures Distinct(SortRefs(xs))
  {
    if xs != [] {
      assert xs == [xs[0]] + xs[1..];
      SortRefsDistinct(xs[1..]);
      InsertRefDistinct(xs[0], SortRefs(xs[1..]));
    }
  }

  lemma RefsInDistinct(h: HalfEdge, events: seq<Event>, step: SaddleConnection, i: nat)
    requires i <= |events|
    ensures Distinct(RefsIn(h, events, step, i))
    decreases |events| - i
  {
    if i < |events| {
      RefsInDistinct(h, events, step, i + 1);
    }
  }

  /** Over distinct half-edges every tuple is collected once. */
  lemma {:induction false} CollectedDistinct(hs: seq<HalfEdge>, touches: map<HalfEdge, seq<Event>>, step: SaddleConnection)
    requires forall h :: h in hs ==> h in touches
    requires Distinct(hs)
    ensures Distinct(Collected(hs, touches, step))
  {
    if hs != [] {
      var head := RefsIn(hs[0], touches[hs[0]], step, 0);
      var rest := Collected(hs[1..], touches, step);
      RefsInDistinct(hs[0], touches[hs[0]], step, 0);
      CollectedDistinct(hs[1..], touches, step);
      forall a, b | 0 <= a < |head| && 0 <= b < |rest|
        ensures head[a] != rest[b]
      {
        assert head[a] in head && rest[b] in rest;
        assert rest[b].halfEdge in hs[1..];
      }
      assert Collected(hs, touches, step) == head + rest;
    }
  }

  /**
   * The tuples of a step, as the records list them: strictly ascending, so
   * each event of the step appears exactly once.
   */
  lemma StepRefsStrict(hs: seq<HalfEdge>, touches: map<HalfEdge, seq<Event>>, step: SaddleConnection)
    requires forall h :: h in hs ==> h in touches
    requires Distinct(hs)
    ensures var r := SortRefs(Collected(hs, touches, step));
            forall i, j :: 0 <= i < j < |r| ==> RefBelow(r[i], r[j])
  {
    CollectedDistinct(hs, touches, step);
    SortRefsDistinct(Collected(hs, touches, step));
  }

  /** What the lists, the labels, the interior and the steps of a drawn component are. */
  datatype Layout = Layout(
    touches: map<HalfEdge, seq<Event>>,
    labels: Labels,
    inside: seq<HalfEdge>,
    steps: seq<PlacedStep>)

  /**
   * `l` is what the pipeline computes for `curves`: the lists hold the
   * perimeter's events ordered along each half-edge, the labels extend the
   * phase-one evidence to every half-edge using only values phase one
   * produced, `inside` is read off them, and
   * `steps` is the pulled-back perimeter.
   */
  ghost predicate Laid(s: Surface, deformation: Option<Deformation>, curves: seq<PerimeterCurve>, l: Layout)
  {
    && PerimeterEvents(s.HalfEdgeSet(), deformation, curves).Success?
    && l.touches.Keys == s.HalfEdgeSet()
    && (forall h :: h in l.touches ==>
          && Ordered(l.touches[h], Precedes)
          && multiset(l.touches[h]) == multiset(EventsAt(PerimeterEvents(s.HalfEdgeSet(), deformation, curves).value, h)))
    && CrossingSymmetric(l.touches)
    && Indexed(s, l.touches) && Listed(s.halfEdges, l.touches)
    && l.labels.start.Keys == l.labels.end.Keys == s.HalfEdgeSet()
    && Extends(PhaseOne(s, l.touches, s.halfEdges).start, l.labels.start)
    && Extends(PhaseOne(s, l.touches, s.halfEdges).end, l.labels.end)
    && (forall h :: h in l.labels.start ==> l.labels.start[h] in PhaseOne(s, l.touches, s.halfEdges).start.Values)
    && (forall h :: h in s.halfEdges ==> h in l.labels.start && h in l.touches)
    && l.inside == Inside(s.halfEdges, l.labels, l.touches)
    && Steps(deformation, curves) == Success(l.steps)
  }

  /** Events for the whole perimeter mean every curve pulls back. */
  lemma {:induction false} PerimeterEventsSteps(H: set<HalfEdge>, deformation: Option<Deformation>, curves: seq<PerimeterCurve>)
    requires PerimeterEvents(H, deformation, curves).Success?
    ensures Steps(deformation, curves).Success?
  {
    if curves != [] {
      var steps := Pullback(deformation, curves[0].connection).value;
      assert PerimeterEvents(H, deformation, curves) == Chain(StepsEvents(H, steps), PerimeterEvents(H, deformation, curves[1..]));
      PerimeterEventsSteps(H, deformation, curves[1..]);
    }
  }

  /** Without curves there are no events: every list is empty. */
  lemma NoCurvesNoEvents(s: Surface, deformation: Option<Deformation>, touches: map<HalfEdge, seq<Event>>)
    requires forall h :: h in touches ==> multiset(touches[h]) == multiset(EventsAt(PerimeterEvents(s.HalfEdgeSet(), deformation, []).value, h))
    ensures forall h :: h in touches ==> touches[h] == []
  {
    forall h | h in touches
      ensures touches[h] == []
    {
      assert multiset(touches[h]) == multiset{};
    }
  }

  /**
   * The shared pipeline: the sorted lists, then the labels, then the
   * interior, then the steps of the perimeter.  It fails with the error of
   * the events, with `AmbiguousOrdering` when a list cannot be sorted, and
   * with `UnresolvedHalfEdge` when a half-edge stays unlabelled, which is
   * always the case for an empty perimeter on a surface with half-edges.
   */
  method Classify(s: Surface, curves: seq<PerimeterCurve>, deformation: Option<Deformation>) returns (r: Result<Layout>)
    requires s.Valid()
    ensures PerimeterEvents(s.HalfEdgeSet(), deformation, curves).Failure? ==>
              r == Failure(PerimeterEvents(s.HalfEdgeSet(), deformation, curves).error)
    ensures PerimeterEvents(s.HalfEdgeSet(), deformation, curves).Success? && r.Failure? ==>
              r.error == AmbiguousOrdering || r.error == UnresolvedHalfEdge
    ensures r.Success? ==> Laid(s, deformation, curves, r.value)
    ensures curves == [] && s.halfEdges != [] ==> r == Failure(UnresolvedHalfEdge)
  {
    var touches :- Touches(s, curves, deformation);
    var labels := InComponent(s, touches);
    if curves == [] {
      NoCurvesNoEvents(s, deformation, touches);
      PhaseOneNothing(s, touches, s.halfEdges);
    }
    if labels.Failure? {
      return Failure(labels.error);
    }
    var inside := Inside(s.halfEdges, labels.value, touches);
    PerimeterEventsSteps(s.HalfEdgeSet(), deformation, curves);
    var steps := Steps(deformation, curves).value;
    r := Success(Layout(touches, labels.value, inside, steps));
  }

  /** One entry of the encoder's `perimeter` list: a step, its curve's flags, and its events. */
  datatype PerimeterRecord = PerimeterRecord(vertical: bool, boundary: bool, step: SaddleConnection, touches: seq<TouchRef>)

  datatype Encoded = Encoded(cylinder: bool, perimeter: seq<PerimeterRecord>, inside: seq<HalfEdge>)

  /**
   * The encoder's output for a laid-out component: a record per step, in
   * perimeter order, carrying the flags of the step's curve and the sorted
   * tuples of every event of that step.
   */
  function EncodedOf(cylinder: bool, hs: seq<HalfEdge>, l: Layout): (r: Encoded)
    requires forall h :: h in hs ==> h in l.touches
    ensures r.cylinder == cylinder && r.inside == l.inside
    ensures |r.perimeter| == |l.steps|
    ensures forall k :: 0 <= k < |l.steps| ==>
              var record := r.perimeter[k];
              && record.step == l.steps[k].step
              && record.vertical == l.steps[k].curve.vertical
              && record.boundary == l.steps[k].curve.boundary
              && Ascending(record.touches)
              && multiset(record.touches) == multiset(Collected(hs, l.touches, l.steps[k].step))
              && forall x :: x in record.touches <==> x.halfEdge in hs && Refers(l.touches, l.steps[k].step, x)
  {
    var records := seq(|l.steps|, k requires 0 <= k < |l.steps| =>
      PerimeterRecord(l.steps[k].curve.vertical, l.steps[k].curve.boundary, l.steps[k].step,
                      SortRefs(Collected(hs, l.touches, l.steps[k].step))));
    Encoded(cylinder, records, l.inside)
  }

  /**
   * The encoder: the pipeline on the curves marked as boundary (all of them
   * for a cylinder), then the records.
   */
  method Encode(s: Surface, component: FlowComponent, deformation: Option<Deformation>)
    returns (r: Result<Encoded>, ghost layout: Layout)
    requires s.Valid()
    ensures PerimeterEvents(s.HalfEdgeSet(), deformation, Perimeter(component)).Failure? ==>
              r == Failure(PerimeterEvents(s.HalfEdgeSet(), deformation, Perimeter(component)).error)
    ensures PerimeterEvents(s.HalfEdgeSet(), deformation, Perimeter(component)).Success? && r.Failure? ==>
              r.error == AmbiguousOrdering || r.error == UnresolvedHalfEdge
    ensures r.Success? ==>
              && Laid(s, deformation, Perimeter(component), layout)
              && r.value == EncodedOf(component.cylinder, s.halfEdges, layout)
    ensures Perimeter(component) == [] && s.halfEdges != [] ==> r == Failure(UnresolvedHalfEdge)
  {
    var laid := Classify(s, Perimeter(component), deformation);
    if laid.Failure? {
      return Failure(laid.error), Layout(map[], Labels(map[], map[]), [], []);
    }
    layout := laid.value;
    r := Success(EncodedOf(component.cylinder, s.halfEdges, laid.value));
  }

  /**
   * One entry of the map encoding's `perimeter` list: the step's endpoints,
   * vector and crossings, the curve's flags, and the step's events.
   */
  datatype MapRecord = MapRecord(
    source: HalfEdge,
    target: HalfEdge,
    vertical: bool,
    boundary: bool,
    vector: Vector,
    crossings: seq<Intersection>,
    touches: seq<TouchRef>)

  datatype MapEncoded = MapEncoded(cylinder: bool, perimeter: seq<MapRecord>, inside: seq<HalfEdge>)

  /**
   * The map encoding's output for a laid-out component: like the encoder's,
   * except that a curve counts as boundary when the components on its two
   * sides differ, and the step is spelled out.
   */
  function MapOf(cylinder: bool, hs: seq<HalfEdge>, l: Layout): (r: MapEncoded)
    requires forall h :: h in hs ==> h in l.touches
    ensures r.cylinder == cylinder && r.inside == l.inside
    ensures |r.perimeter| == |l.steps|
    ensures forall k :: 0 <= k < |l.steps| ==>
              var record := r.perimeter[k];
              var step := l.steps[k].step;
              && record.source == step.source && record.target == step.target
              && record.vector == step.vector && record.crossings == step.path
              && record.vertical == l.steps[k].curve.vertical
              && record.boundary == (l.steps[k].curve.component != l.steps[k].curve.reverseComponent)
              && Ascending(record.touches)
              && multiset(record.touches) == multiset(Collected(hs, l.touches, step))
              && forall x :: x in record.touches <==> x.halfEdge in hs && Refers(l.touches, step, x)
  {
    var records := seq(|l.steps|, k requires 0 <= k < |l.steps| =>
      var p := l.steps[k];
      MapRecord(p.step.source, p.step.target, p.curve.vertical, p.curve.component != p.curve.reverseComponent,
                p.step.vector, p.step.path, SortRefs(Collected(hs, l.touches, p.step))));
    MapEncoded(cylinder, records, l.inside)
  }

  /** The map encoding: the pipeline on the curves whose reverse lies in another component, then the records. */
  method ComponentToMap(s: Surface, component: FlowComponent, deformation: Option<Deformation>)
    returns (r: Result<MapEncoded>, ghost layout: Layout)
    requires s.Valid()
    ensures PerimeterEvents(s.HalfEdgeSet(), deformation, LegacyPerimeter(component)).Failure? ==>
              r == Failure(PerimeterEvents(s.HalfEdgeSet(), deformation, LegacyPerimeter(component)).error)
    ensures PerimeterEvents(s.HalfEdgeSet(), deformation, LegacyPerimeter(component)).Success? && r.Failure? ==>
              r.error == AmbiguousOrdering || r.error == UnresolvedHalfEdge
    ensures r.Success? ==>
              && Laid(s, deformation, LegacyPerimeter(component), layout)
              && r.value == MapOf(component.cylinder, s.halfEdges, layout)
    ensures LegacyPerimeter(component) == [] && s.halfEdges != [] ==> r == Failure(UnresolvedHalfEdge)
  {
    var laid := Classify(s, LegacyPerimeter(component), deformation);
    if laid.Failure? {
      return Failure(laid.error), Layout(map[], Labels(map[], map[]), [], []);
    }
    layout := laid.value;
    r := Success(MapOf(component.cylinder, s.halfEdges, laid.value));
  }
}
