/**
 * The events each step of the perimeter leaves on the half-edges of the
 * surface, filed per half-edge and then put in their order along it.
 *
 * `StepEvents` and `PerimeterEvents` say, as values, what the filing loops
 * append and in which order; `Touches` is those loops, proved to produce
 * exactly those events, sorted.
 */
module EventIndex {
  import opened Errors
  import opened Surfaces
  import opened Sorting
  import opened Events
  import opened Deformations
  import opened Perimeters

  /** An event together with the half-edge it is filed under. */
  datatype Filed = Filed(halfEdge: HalfEdge, event: Event)

  /** The `i`-th point of the path and the point of the reversed path it pairs with. */
  function Forward(step: SaddleConnection, i: nat): Intersection
    requires i < |step.path|
  {
    step.path[i]
  }

  function Backward(step: SaddleConnection, i: nat): Intersection
    requires i < |step.path| == |step.reversePath|
  {
    step.reversePath[|step.path| - 1 - i]
  }

  /** The two sides of crossing `i` are the two orientations of one edge, both on the surface. */
  ghost predicate PairedAt(H: set<HalfEdge>, step: SaddleConnection, i: nat)
    requires i < |step.path| == |step.reversePath|
  {
    && Forward(step, i).halfEdge == -Backward(step, i).halfEdge
    && Forward(step, i).halfEdge in H
    && Backward(step, i).halfEdge in H
  }

  /** The path of `-step`, read backwards, crosses the same edges as the path of `step`. */
  ghost predicate PathSymmetric(step: SaddleConnection)
  {
    && |step.path| == |step.reversePath|
    && forall i :: 0 <= i < |step.path| ==> Forward(step, i).halfEdge == -Backward(step, i).halfEdge
  }

  /** Every half-edge the step names is a half-edge of the surface. */
  ghost predicate KnownHalfEdges(H: set<HalfEdge>, step: SaddleConnection)
  {
    && step.source in H
    && step.target in H
    && (forall x :: x in step.path ==> x.halfEdge in H)
    && (forall x :: x in step.reversePath ==> x.halfEdge in H)
  }

  /** The crossing events of crossings `i..` of `step`, each entering and then leaving. */
  function CrossingEvents(H: set<HalfEdge>, step: SaddleConnection, i: nat): (r: Result<seq<Filed>>)
    requires |step.path| == |step.reversePath| && i <= |step.path|
    ensures r.Success? <==> forall m :: i <= m < |step.path| ==> PairedAt(H, step, m)
    ensures r.Success? ==> |r.value| == 2 * (|step.path| - i)
    ensures r.Failure? ==> r.error == PathAsymmetry || r.error == UnknownHalfEdge
    ensures r == Failure(UnknownHalfEdge) ==>
              exists m :: i <= m < |step.path| && (Forward(step, m).halfEdge !in H || Backward(step, m).halfEdge !in H)
    decreases |step.path| - i
  {
    if i == |step.path| then Success([])
    else
      var p := Forward(step, i);
      var q := Backward(step, i);
      if p.halfEdge != -q.halfEdge then
        assert !PairedAt(H, step, i);
        Failure(PathAsymmetry)
      else if p.halfEdge !in H || q.halfEdge !in H then
        assert !PairedAt(H, step, i);
        Failure(UnknownHalfEdge)
      else
        assert PairedAt(H, step, i);
        Prepend([Filed(p.halfEdge, Crossing(2 * i + 2, step, p, false)),
                 Filed(q.halfEdge, Crossing(2 * i + 3, step, q, true))],
                CrossingEvents(H, step, i + 1))
  }

  /** Entries `2m` and `2m + 1` of `cs` are the entering and leaving events of crossing `base + m`. */
  ghost predicate CrossingPairAt(cs: seq<Filed>, step: SaddleConnection, base: nat, m: nat)
    requires base + m < |step.path| == |step.reversePath| && 2 * m + 1 < |cs|
  {
    var i := base + m;
    && cs[2 * m] == Filed(Forward(step, i).halfEdge, Crossing(2 * i + 2, step, Forward(step, i), false))
    && cs[2 * m + 1] == Filed(Backward(step, i).halfEdge, Crossing(2 * i + 3, step, Backward(step, i), true))
  }

  /** Crossing `i + m` contributes entries `2m` (entering) and `2m + 1` (leaving), numbered along the step. */
  lemma {:induction false} CrossingEventsShape(H: set<HalfEdge>, step: SaddleConnection, i: nat)
    requires |step.path| == |step.reversePath| && i <= |step.path|
    requires CrossingEvents(H, step, i).Success?
    ensures forall m :: 0 <= m < |step.path| - i ==> CrossingPairAt(CrossingEvents(H, step, i).value, step, i, m)
    decreases |step.path| - i
  {
    if i < |step.path| {
      CrossingEventsShape(H, step, i + 1);
      var p := Forward(step, i);
      var q := Backward(step, i);
      var cs := CrossingEvents(H, step, i).value;
      var rest := CrossingEvents(H, step, i + 1).value;
      assert cs == [Filed(p.halfEdge, Crossing(2 * i + 2, step, p, false)),
                    Filed(q.halfEdge, Crossing(2 * i + 3, step, q, true))] + rest;
      forall m | 0 <= m < |step.path| - i
        ensures CrossingPairAt(cs, step, i, m)
      {
        if 0 < m {
          assert CrossingPairAt(rest, step, i + 1, m - 1);
          assert cs[2 * m] == rest[2 * (m - 1)] && cs[2 * m + 1] == rest[2 * (m - 1) + 1];
        }
      }
    }
  }

  /**
   * The events one step appends, in the order it appends them: a leaving
   * touching at the source, an entering and a leaving crossing per point of
   * the path, and an arriving touching at the target.
   */
  function StepEvents(H: set<HalfEdge>, step: SaddleConnection): (r: Result<seq<Filed>>)
    ensures r.Failure? ==> r.error == UnknownHalfEdge || r.error == PathAsymmetry
    ensures r.Success? ==> |r.value| == 2 * |step.path| + 2
  {
    if step.source !in H then Failure(UnknownHalfEdge)
    else if |step.path| != |step.reversePath| then Failure(PathAsymmetry)
    else
      var crossings :- CrossingEvents(H, step, 0);
      if step.target !in H then Failure(UnknownHalfEdge)
      else
        var k := |step.path|;
        Success([Filed(step.source, Touching(1, step, step.vector, true))]
                + crossings
                + [Filed(step.target, Touching(2 * k + 2, step, Neg(step.vector), false))])
  }

  /**
   * A step is filed exactly when all the half-edges it reaches are on the
   * surface and its crossings pair up; when all of its half-edges are known,
   * the only way to fail is an asymmetric path.
   */
  lemma StepEventsSucceed(H: set<HalfEdge>, step: SaddleConnection)
    ensures StepEvents(H, step).Success? <==>
              && step.source in H && step.target in H
              && |step.path| == |step.reversePath|
              && forall m :: 0 <= m < |step.path| ==> PairedAt(H, step, m)
    ensures KnownHalfEdges(H, step) ==>
              && (StepEvents(H, step).Success? <==> PathSymmetric(step))
              && (StepEvents(H, step).Failure? ==> StepEvents(H, step).error == PathAsymmetry)
  {
    if KnownHalfEdges(H, step) && |step.path| == |step.reversePath| {
      forall m | 0 <= m < |step.path|
        ensures Forward(step, m).halfEdge in H && Backward(step, m).halfEdge in H
        ensures PairedAt(H, step, m) <==> Forward(step, m).halfEdge == -Backward(step, m).halfEdge
      {
        assert step.path[m] in step.path;
        assert step.reversePath[|step.path| - 1 - m] in step.reversePath;
      }
      assert !exists m :: 0 <= m < |step.path| && (Forward(step, m).halfEdge !in H || Backward(step, m).halfEdge !in H);
    }
  }

  /**
   * The events of a step are numbered 1, 2, ... along the step; the first
   * leaves the source along the step's vector, the last arrives at the target
   * against it, and in between the crossings come in pairs on the two sides of an edge.
   */
  lemma StepEventsShape(H: set<HalfEdge>, step: SaddleConnection, fs: seq<Filed>)
    requires StepEvents(H, step) == Success(fs)
    ensures |fs| == 2 * |step.path| + 2
    ensures forall j :: 0 <= j < |fs| ==> fs[j].event.n == j + 1 && fs[j].event.step == step
    ensures fs[0] == Filed(step.source, Touching(1, step, step.vector, true))
    ensures fs[|fs| - 1] == Filed(step.target, Touching(|fs|, step, Neg(step.vector), false))
    ensures forall m :: 0 <= m < |step.path| ==>
              && fs[2 * m + 1].event.Crossing? && !fs[2 * m + 1].event.out
              && fs[2 * m + 2].event.Crossing? && fs[2 * m + 2].event.out
              && fs[2 * m + 2].halfEdge == -fs[2 * m + 1].halfEdge
  {
    var k := |step.path|;
    var cs := CrossingEvents(H, step, 0).value;
    CrossingEventsShape(H, step, 0);
    assert fs == [fs[0]] + cs + [fs[2 * k + 1]];
    forall j | 0 <= j < |fs|
      ensures fs[j].event.n == j + 1 && fs[j].event.step == step
    {
      if 0 < j < 2 * k + 1 {
        assert fs[j] == cs[j - 1];
        var m := (j - 1) / 2;
        assert CrossingPairAt(cs, step, 0, m);
        if (j - 1) % 2 == 0 {
          assert cs[2 * m] == cs[j - 1];
        } else {
          assert cs[2 * m + 1] == cs[j - 1];
        }
      }
    }
    forall m | 0 <= m < k
      ensures fs[2 * m + 1].event.Crossing? && !fs[2 * m + 1].event.out
      ensures fs[2 * m + 2].event.Crossing? && fs[2 * m + 2].event.out
      ensures fs[2 * m + 2].halfEdge == -fs[2 * m + 1].halfEdge
    {
      assert fs[2 * m + 1] == cs[2 * m] && fs[2 * m + 2] == cs[2 * m + 1];
      assert CrossingPairAt(cs, step, 0, m) && PairedAt(H, step, m);
    }
  }

  /** The events of a list of steps, step after step. */
  function StepsEvents(H: set<HalfEdge>, steps: seq<SaddleConnection>): (r: Result<seq<Filed>>)
    ensures r.Failure? ==> r.error == UnknownHalfEdge || r.error == PathAsymmetry
  {
    if steps == [] then Success([])
    else Chain(StepEvents(H, steps[0]), StepsEvents(H, steps[1..]))
  }

  /** The events of the whole perimeter: curve by curve, the steps of its pullback. */
  function PerimeterEvents(H: set<HalfEdge>, deformation: Option<Deformation>, curves: seq<PerimeterCurve>): (r: Result<seq<Filed>>)
    ensures r.Failure? ==> r.error != AmbiguousOrdering && r.error != UnresolvedHalfEdge
  {
    if curves == [] then Success([])
    else
      var steps :- Pullback(deformation, curves[0].connection);
      Chain(StepsEvents(H, steps), PerimeterEvents(H, deformation, curves[1..]))
  }

  /** The steps are filed exactly when each of them is. */
  lemma {:induction false} StepsEventsSucceed(H: set<HalfEdge>, steps: seq<SaddleConnection>)
    ensures StepsEvents(H, steps).Success? <==> forall step :: step in steps ==> StepEvents(H, step).Success?
  {
    if steps != [] {
      StepsEventsSucceed(H, steps[1..]);
      assert forall step :: step in steps <==> step == steps[0] || step in steps[1..];
    }
  }

  /** The perimeter is filed exactly when every curve pulls back and the steps of each are filed. */
  lemma {:induction false} PerimeterEventsSucceed(H: set<HalfEdge>, deformation: Option<Deformation>, curves: seq<PerimeterCurve>)
    ensures PerimeterEvents(H, deformation, curves).Success? <==> forall c :: c in curves ==>
              Pullback(deformation, c.connection).Success? && StepsEvents(H, Pullback(deformation, c.connection).value).Success?
  {
    if curves != [] {
      PerimeterEventsSucceed(H, deformation, curves[1..]);
      assert forall c :: c in curves <==> c == curves[0] || c in curves[1..];
    }
  }

  /** The events filed under `h`, in filing order. */
  function EventsAt(fs: seq<Filed>, h: HalfEdge): (r: seq<Event>)
    ensures forall e :: e in r <==> Filed(h, e) in fs
    ensures |r| <= |fs|
  {
    if fs == [] then []
    else
      var last := fs[|fs| - 1];
      EventsAt(fs[..|fs| - 1], h) + (if last.halfEdge == h then [last.event] else [])
  }

  /** The per-half-edge lists after filing `fs` into empty lists for the half-edges `H`. */
  function Buckets(H: set<HalfEdge>, fs: seq<Filed>): map<HalfEdge, seq<Event>>
  {
    map h | h in H :: EventsAt(fs, h)
  }

  /** Filing one more event appends it to its own half-edge's list and changes no other list. */
  lemma BucketsSnoc(H: set<HalfEdge>, fs: seq<Filed>, f: Filed)
    requires f.halfEdge in H
    ensures Buckets(H, fs + [f]) == Buckets(H, fs)[f.halfEdge := Buckets(H, fs)[f.halfEdge] + [f.event]]
  {
    var g := fs + [f];
    assert g[..|g| - 1] == fs && g[|g| - 1] == f;
    var before := Buckets(H, fs);
    var after := Buckets(H, g);
    var expected := before[f.halfEdge := before[f.halfEdge] + [f.event]];
    assert after.Keys == expected.Keys;
    forall h | h in after
      ensures after[h] == expected[h]
    {
      assert after[h] == EventsAt(g, h) && before[h] == EventsAt(fs, h);
    }
  }

  /** `touches[f.halfEdge].append(f.event)`, failing as a missing key does when the surface has no such half-edge. */
  method Append(H: set<HalfEdge>, touches: map<HalfEdge, seq<Event>>, ghost filed: seq<Filed>, f: Filed)
    returns (r: Result<map<HalfEdge, seq<Event>>>)
    requires touches == Buckets(H, filed)
    ensures f.halfEdge in H ==> r == Success(Buckets(H, filed + [f]))
    ensures f.halfEdge !in H ==> r == Failure(UnknownHalfEdge)
  {
    if f.halfEdge !in touches {
      return Failure(UnknownHalfEdge);
    }
    BucketsSnoc(H, filed, f);
    r := Success(touches[f.halfEdge := touches[f.halfEdge] + [f.event]]);
  }

  /**
   * The loop over the path of one step: an entering and a leaving crossing per
   * point, appended to `touches`, the lists obtained so far from the events `filed`.
   */
  method FileCrossings(H: set<HalfEdge>, step: SaddleConnection, touches: map<HalfEdge, seq<Event>>, ghost filed: seq<Filed>)
    returns (r: Result<map<HalfEdge, seq<Event>>>)
    requires |step.path| == |step.reversePath|
    requires touches == Buckets(H, filed)
    ensures CrossingEvents(H, step, 0).Failure? ==> r == Failure(CrossingEvents(H, step, 0).error)
    ensures CrossingEvents(H, step, 0).Success? ==> r == Success(Buckets(H, filed + CrossingEvents(H, step, 0).value))
  {
    var m := touches;
    var n := 1;
    ghost var acc: seq<Filed> := [];
    assert filed + acc == filed;
    PrependNothing(CrossingEvents(H, step, 0));
    var i := 0;
    while i < |step.path|
      invariant 0 <= i <= |step.path|
      invariant n == 2 * i + 1
      invariant m == Buckets(H, filed + acc)
      invariant CrossingEvents(H, step, 0) == Prepend(acc, CrossingEvents(H, step, i))
    {
      var p := step.path[i];
      var q := step.reversePath[|step.path| - 1 - i];
      if p.halfEdge != -q.halfEdge {
        return Failure(PathAsymmetry);
      }
      n := n + 1;
      var entering := Filed(p.halfEdge, Crossing(n, step, p, false));
      m :- Append(H, m, filed + acc, entering);
      n := n + 1;
      var leaving := Filed(q.halfEdge, Crossing(n, step, q, true));
      m :- Append(H, m, filed + acc + [entering], leaving);
      assert filed + acc + [entering] + [leaving] == filed + (acc + [entering, leaving]);
      PrependPrepend(acc, [entering, leaving], CrossingEvents(H, step, i + 1));
      acc := acc + [entering, leaving];
      i := i + 1;
    }
    assert acc + [] == acc;
    r := Success(m);
  }

  /**
   * Files the events of one step into `touches`, the lists obtained so far
   * from the events `filed`.  Fails with the error `StepEvents` predicts,
   * and otherwise yields the lists of `filed` followed by the step's events.
   */
  method FileStep(H: set<HalfEdge>, step: SaddleConnection, touches: map<HalfEdge, seq<Event>>, ghost filed: seq<Filed>)
    returns (r: Result<map<HalfEdge, seq<Event>>>)
    requires touches == Buckets(H, filed)
    ensures StepEvents(H, step).Failure? ==> r == Failure(StepEvents(H, step).error)
    ensures StepEvents(H, step).Success? ==> r == Success(Buckets(H, filed + StepEvents(H, step).value))
  {
    var first := Filed(step.source, Touching(1, step, step.vector, true));
    var m :- Append(H, touches, filed, first);
    ghost var head := filed + [first];

    if |step.path| != |step.reversePath| {
      return Failure(PathAsymmetry);
    }
    m :- FileCrossings(H, step, m, head);
    ghost var crossings := CrossingEvents(H, step, 0).value;
    var last := Filed(step.target, Touching(2 * |step.path| + 2, step, Neg(step.vector), false));
    m :- Append(H, m, head + crossings, last);
    assert filed + StepEvents(H, step).value == head + crossings + [last];
    r := Success(m);
  }

  /** The half-edges some filed crossing is filed under. */
  function Crossed(fs: seq<Filed>): set<HalfEdge>
  {
    set f | f in fs && f.event.Crossing? :: f.halfEdge
  }

  /** Every crossing filed under a half-edge has a crossing filed under the reversed half-edge. */
  ghost predicate Mirrored(fs: seq<Filed>)
  {
    Reversed(Crossed(fs)) == Crossed(fs)
  }

  /** A step enters and leaves every edge it crosses: its crossings come in mirrored pairs. */
  lemma StepEventsMirrored(H: set<HalfEdge>, step: SaddleConnection, fs: seq<Filed>)
    requires StepEvents(H, step) == Success(fs)
    ensures Mirrored(fs)
  {
    StepEventsShape(H, step, fs);
    MirroredPairs(fs, |step.path|);
  }

  /** Events between two touchings, made of crossings paired as (h, -h), are mirrored. */
  lemma MirroredPairs(fs: seq<Filed>, k: nat)
    requires |fs| == 2 * k + 2
    requires fs[0].event.Touching? && fs[|fs| - 1].event.Touching?
    requires forall m :: 0 <= m < k ==>
               && fs[2 * m + 1].event.Crossing? && fs[2 * m + 2].event.Crossing?
               && fs[2 * m + 2].halfEdge == -fs[2 * m + 1].halfEdge
    ensures Mirrored(fs)
  {
    var c := Crossed(fs);
    forall h | h in c
      ensures -h in c
    {
      var f :| f in fs && f.event.Crossing? && f.halfEdge == h;
      var j :| 0 <= j < |fs| && fs[j] == f;
      assert 0 < j < |fs| - 1;
      var m := (j - 1) / 2;
      if j == 2 * m + 1 {
        assert fs[2 * m + 2] in fs;
      } else {
        assert fs[2 * m + 1] in fs;
      }
    }
    forall h | h in c
      ensures h in Reversed(c) && -h in Reversed(c)
    {
      assert -h in c && h == -(-h);
    }
  }

  lemma MirroredConcat(a: seq<Filed>, b: seq<Filed>)
    requires Mirrored(a) && Mirrored(b)
    ensures Mirrored(a + b)
  {
    assert Crossed(a + b) == Crossed(a) + Crossed(b);
    assert Reversed(Crossed(a) + Crossed(b)) == Reversed(Crossed(a)) + Reversed(Crossed(b));
  }

  lemma {:induction false} StepsEventsMirrored(H: set<HalfEdge>, steps: seq<SaddleConnection>)
    requires StepsEvents(H, steps).Success?
    ensures Mirrored(StepsEvents(H, steps).value)
  {
    if steps != [] {
      StepEventsMirrored(H, steps[0], StepEvents(H, steps[0]).value);
      StepsEventsMirrored(H, steps[1..]);
      MirroredConcat(StepEvents(H, steps[0]).value, StepsEvents(H, steps[1..]).value);
    }
  }

  /** The events of the whole perimeter cross every edge from both sides. */
  lemma {:induction false} PerimeterEventsMirrored(H: set<HalfEdge>, deformation: Option<Deformation>, curves: seq<PerimeterCurve>)
    requires PerimeterEvents(H, deformation, curves).Success?
    ensures Mirrored(PerimeterEvents(H, deformation, curves).value)
  {
    if curves != [] {
      var steps := Pullback(deformation, curves[0].connection).value;
      StepsEventsMirrored(H, steps);
      PerimeterEventsMirrored(H, deformation, curves[1..]);
      MirroredConcat(StepsEvents(H, steps).value, PerimeterEvents(H, deformation, curves[1..]).value);
    }
  }

  /** The list filed under `h` holds a crossing exactly when `h` is a crossed half-edge. */
  lemma HasCrossingAt(fs: seq<Filed>, h: HalfEdge)
    ensures HasCrossing(EventsAt(fs, h)) <==> h in Crossed(fs)
  {
    if HasCrossing(EventsAt(fs, h)) {
      var e: Event :| e in EventsAt(fs, h) && e.Crossing?;
      assert Filed(h, e) in fs;
    }
    if h in Crossed(fs) {
      var f :| f in fs && f.event.Crossing? && f.halfEdge == h;
      assert f.event in EventsAt(fs, h);
    }
  }

  /** Filed mirrored events, a half-edge is crossed exactly when its reverse is. */
  lemma BucketsCrossingSymmetric(H: set<HalfEdge>, fs: seq<Filed>)
    requires ReversalClosed(H)
    requires Mirrored(fs)
    ensures CrossingSymmetric(Buckets(H, fs))
  {
    var b := Buckets(H, fs);
    var c := Crossed(fs);
    forall h {:trigger Rev(h)} | h in b
      ensures Rev(h) in b && (HasCrossing(b[h]) <==> HasCrossing(b[Rev(h)]))
    {
      assert Rev(h) in H;
      HasCrossingAt(fs, h);
      HasCrossingAt(fs, -h);
      if h in c {
        ReversedMember(c, h);
      }
      if -h in c {
        ReversedMember(c, -h);
      }
    }
  }

  lemma HasCrossingPermutation(a: seq<Event>, b: seq<Event>)
    requires multiset(a) == multiset(b)
    ensures HasCrossing(a) <==> HasCrossing(b)
  {
    if HasCrossing(a) {
      var e: Event :| e in a && e.Crossing?;
      assert e in multiset(b);
    }
    if HasCrossing(b) {
      var e: Event :| e in b && e.Crossing?;
      assert e in multiset(a);
    }
  }

  /** Reordering each list within itself keeps a half-edge crossed exactly when its reverse is. */
  lemma PermutedCrossingSymmetric(t: map<HalfEdge, seq<Event>>, u: map<HalfEdge, seq<Event>>)
    requires CrossingSymmetric(t)
    requires u.Keys == t.Keys && forall h :: h in u ==> multiset(u[h]) == multiset(t[h])
    ensures CrossingSymmetric(u)
  {
    forall h | h in u
      ensures HasCrossing(u[h]) <==> HasCrossing(t[h])
    {
      HasCrossingPermutation(u[h], t[h]);
    }
  }

  /** Sorted lists of the perimeter's events on a surface: a half-edge is crossed exactly when its reverse is. */
  lemma SortedTouchesSymmetric(s: Surface, deformation: Option<Deformation>, curves: seq<PerimeterCurve>, sorted: map<HalfEdge, seq<Event>>)
    requires s.Valid()
    requires PerimeterEvents(s.HalfEdgeSet(), deformation, curves).Success?
    requires var t := Buckets(s.HalfEdgeSet(), PerimeterEvents(s.HalfEdgeSet(), deformation, curves).value);
             sorted.Keys == t.Keys && forall h :: h in sorted ==> multiset(sorted[h]) == multiset(t[h])
    ensures CrossingSymmetric(sorted)
  {
    var H := s.HalfEdgeSet();
    PerimeterEventsMirrored(H, deformation, curves);
    BucketsCrossingSymmetric(H, PerimeterEvents(H, deformation, curves).value);
    PermutedCrossingSymmetric(Buckets(H, PerimeterEvents(H, deformation, curves).value), sorted);
  }

  /**
   * The inner filing loop: every step of one pullback, in order, appends its
   * events to `touches`, the lists obtained so far from the events `filed`.
   */
  method FileSteps(H: set<HalfEdge>, steps: seq<SaddleConnection>, touches: map<HalfEdge, seq<Event>>, ghost filed: seq<Filed>)
    returns (r: Result<map<HalfEdge, seq<Event>>>)
    requires touches == Buckets(H, filed)
    ensures StepsEvents(H, steps).Failure? ==> r == Failure(StepsEvents(H, steps).error)
    ensures StepsEvents(H, steps).Success? ==> r == Success(Buckets(H, filed + StepsEvents(H, steps).value))
  {
    var m := touches;
    ghost var acc: seq<Filed> := [];
    assert filed + acc == filed;
    var si := 0;
    assert steps[si..] == steps;
    PrependNothing(StepsEvents(H, steps));
    while si < |steps|
      invariant 0 <= si <= |steps|
      invariant m == Buckets(H, filed + acc)
      invariant StepsEvents(H, steps) == Prepend(acc, StepsEvents(H, steps[si..]))
    {
      assert steps[si..][1..] == steps[si + 1..];
      m :- FileStep(H, steps[si], m, filed + acc);
      ghost var added := StepEvents(H, steps[si]).value;
      PrependPrepend(acc, added, StepsEvents(H, steps[si + 1..]));
      assert filed + acc + added == filed + (acc + added);
      acc := acc + added;
      si := si + 1;
    }
    assert steps[si..] == [];
    assert acc + [] == acc;
    r := Success(m);
  }

  /**
   * The filing loops: every step of every curve's pullback, in order, appends
   * its events to the lists of the half-edges `H`.  Fails where `PerimeterEvents`
   * fails, with its error, and otherwise yields exactly its events, per half-edge.
   */
  method FilePerimeter(H: set<HalfEdge>, curves: seq<PerimeterCurve>, deformation: Option<Deformation>)
    returns (r: Result<map<HalfEdge, seq<Event>>>)
    ensures PerimeterEvents(H, deformation, curves).Failure? ==> r == Failure(PerimeterEvents(H, deformation, curves).error)
    ensures PerimeterEvents(H, deformation, curves).Success? ==> r == Success(Buckets(H, PerimeterEvents(H, deformation, curves).value))
  {
    var touches: map<HalfEdge, seq<Event>> := map h | h in H :: [];
    ghost var filed: seq<Filed> := [];
    assert touches == Buckets(H, filed);

    var ci := 0;
    assert curves[ci..] == curves;
    PrependNothing(PerimeterEvents(H, deformation, curves));
    while ci < |curves|
      invariant 0 <= ci <= |curves|
      invariant touches == Buckets(H, filed)
      invariant PerimeterEvents(H, deformation, curves) == Prepend(filed, PerimeterEvents(H, deformation, curves[ci..]))
    {
      assert curves[ci..][1..] == curves[ci + 1..];
      var steps :- Pullback(deformation, curves[ci].connection);
      touches :- FileSteps(H, steps, touches, filed);
      ghost var added := StepsEvents(H, steps).value;
      PrependPrepend(filed, added, PerimeterEvents(H, deformation, curves[ci + 1..]));
      filed := filed + added;
      ci := ci + 1;
    }
    assert filed + [] == filed;
    r := Success(touches);
  }

  /**
   * Sorts the list of each half-edge, visiting the half-edges in the order
   * `halfEdges` lists them.  Each list ends up a permutation of itself ordered
   * by `Precedes`; the first list holding two events that cannot be ordered
   * fails the whole with `AmbiguousOrdering`.
   */
  method SortEach(halfEdges: seq<HalfEdge>, touches: map<HalfEdge, seq<Event>>)
    returns (r: Result<map<HalfEdge, seq<Event>>>)
    requires forall i, j :: 0 <= i < j < |halfEdges| ==> halfEdges[i] != halfEdges[j]
    requires touches.Keys == set h | h in halfEdges
    ensures r.Success? ==>
              && r.value.Keys == touches.Keys
              && forall h :: h in r.value ==>
                   Ordered(r.value[h], Precedes) && multiset(r.value[h]) == multiset(touches[h])
    ensures r.Failure? ==> r.error == AmbiguousOrdering && exists h :: h in halfEdges && HasTie(touches[h], Precedes)
  {
    PrecedesAntisymmetric();
    var sorted := touches;
    var i := 0;
    while i < |halfEdges|
      invariant 0 <= i <= |halfEdges|
      invariant sorted.Keys == touches.Keys
      invariant forall h :: h in sorted ==> multiset(sorted[h]) == multiset(touches[h])
      invariant forall k :: 0 <= k < i ==> Ordered(sorted[halfEdges[k]], Precedes)
      invariant forall k :: i <= k < |halfEdges| ==> sorted[halfEdges[k]] == touches[halfEdges[k]]
    {
      var h := halfEdges[i];
      var next := InsertionSort(sorted[h], Precedes);
      if next.None? {
        return Failure(AmbiguousOrdering);
      }
      sorted := sorted[h := next.value];
      i := i + 1;
    }
    forall h | h in sorted
      ensures Ordered(sorted[h], Precedes)
    {
      var k :| 0 <= k < |halfEdges| && halfEdges[k] == h;
    }
    r := Success(sorted);
  }

  /**
   * For every half-edge of the surface, the touchings and crossings of the
   * perimeter with it, in their order along the half-edge.
   *
   * The lists hold exactly the events `PerimeterEvents` files under each
   * half-edge, and each is ordered by `Precedes`.  A pullback that fails, a
   * half-edge the surface does not have or an asymmetric path fail with the
   * error `PerimeterEvents` reports; two events on one half-edge that the
   * comparison cannot order fail with `AmbiguousOrdering`.
   */
  method Touches(s: Surface, curves: seq<PerimeterCurve>, deformation: Option<Deformation>)
    returns (r: Result<map<HalfEdge, seq<Event>>>)
    requires s.Valid()
    ensures PerimeterEvents(s.HalfEdgeSet(), deformation, curves).Failure? ==>
              r == Failure(PerimeterEvents(s.HalfEdgeSet(), deformation, curves).error)
    ensures r.Success? ==>
              && PerimeterEvents(s.HalfEdgeSet(), deformation, curves).Success?
              && r.value.Keys == s.HalfEdgeSet()
              && forall h :: h in r.value ==>
                   && Ordered(r.value[h], Precedes)
                   && multiset(r.value[h]) == multiset(EventsAt(PerimeterEvents(s.HalfEdgeSet(), deformation, curves).value, h))
    ensures PerimeterEvents(s.HalfEdgeSet(), deformation, curves).Success? && r.Failure? ==>
              && r.error == AmbiguousOrdering
              && exists h :: h in s.halfEdges && HasTie(EventsAt(PerimeterEvents(s.HalfEdgeSet(), deformation, curves).value, h), Precedes)
    ensures r.Success? ==> CrossingSymmetric(r.value)
  {
    ghost var H := s.HalfEdgeSet();
    ghost var events := PerimeterEvents(H, deformation, curves);
    var filed := FilePerimeter(s.HalfEdgeSet(), curves, deformation);
    if filed.Failure? {
      return Failure(filed.error);
    }
    var touches := filed.value;
    r := SortEach(s.halfEdges, touches);
    if r.Success? {
      SortedTouchesSymmetric(s, deformation, curves, r.value);
    }
  }
}
