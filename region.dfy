/**
 * Which half-edges lie in the flow component: for each half-edge, whether
 * its beginning (`start`) and its end (`end`) belong to the component.
 *
 * Phase one reads the labels off the sorted events of each half-edge (or of
 * the half-edge before it at the vertex); phase two floods the labels around
 * the vertices into the half-edges the perimeter does not reach; a half-edge
 * still unlabelled afterwards is an error.
 */
module RegionClassifier {
  import opened Errors
  import opened Surfaces
  import opened Events
  import opened Sequences

  datatype Labels = Labels(start: map<HalfEdge, bool>, end: map<HalfEdge, bool>)

  /** The crossings among `events`, in their order. */
  function Crossings(events: seq<Event>): (r: seq<Event>)
    ensures forall e :: e in r <==> e in events && e.Crossing?
    ensures r == [] <==> !HasCrossing(events)
    ensures IsSubsequence(r, events)
  {
    if events == [] then []
    else if events[0].Crossing? then
      var rest := Crossings(events[1..]);
      assert ([events[0]] + rest)[1..] == rest;
      [events[0]] + rest
    else Crossings(events[1..])
  }

  /** `events[i]` is a crossing and no crossing comes before it. */
  predicate FirstCrossingAt(events: seq<Event>, i: int)
  {
    0 <= i < |events| && events[i].Crossing? && forall j :: 0 <= j < i ==> !events[j].Crossing?
  }

  /** `events[i]` is a crossing and no crossing comes after it. */
  predicate LastCrossingAt(events: seq<Event>, i: int)
  {
    0 <= i < |events| && events[i].Crossing? && forall j :: i < j < |events| ==> !events[j].Crossing?
  }

  /** The first entry of `Crossings` is the first crossing of the list. */
  lemma {:induction false} CrossingsFirst(events: seq<Event>, i: int)
    requires FirstCrossingAt(events, i)
    ensures Crossings(events) != [] && Crossings(events)[0] == events[i]
    decreases i
  {
    if i > 0 {
      assert !events[0].Crossing?;
      assert FirstCrossingAt(events[1..], i - 1) by {
        forall j | 0 <= j < i - 1
          ensures !events[1..][j].Crossing?
        {
          assert events[1..][j] == events[j + 1];
        }
      }
      CrossingsFirst(events[1..], i - 1);
    }
  }

  /** A list without crossings has none to report. */
  lemma {:induction false} CrossingsNone(events: seq<Event>)
    requires forall j :: 0 <= j < |events| ==> !events[j].Crossing?
    ensures Crossings(events) == []
  {
    if events != [] {
      assert forall j :: 0 <= j < |events[1..]| ==> events[1..][j] == events[j + 1];
      CrossingsNone(events[1..]);
    }
  }

  /** The last entry of `Crossings` is the last crossing of the list. */
  lemma {:induction false} CrossingsLast(events: seq<Event>, i: int)
    requires LastCrossingAt(events, i)
    ensures Crossings(events) != [] && Crossings(events)[|Crossings(events)| - 1] == events[i]
    decreases i
  {
    if i == 0 {
      assert forall j :: 0 <= j < |events[1..]| ==> !events[1..][j].Crossing? by {
        forall j | 0 <= j < |events[1..]|
          ensures !events[1..][j].Crossing?
        {
          assert events[1..][j] == events[j + 1];
        }
      }
      CrossingsNone(events[1..]);
    } else {
      assert LastCrossingAt(events[1..], i - 1) by {
        forall j | i - 1 < j < |events[1..]|
          ensures !events[1..][j].Crossing?
        {
          assert events[1..][j] == events[j + 1];
        }
      }
      CrossingsLast(events[1..], i - 1);
    }
  }

  /** A touching that leaves or arrives along `v`, the vector of the half-edge itself. */
  predicate Along(e: Event, v: Vector)
  {
    e.Touching? && e.vector == v
  }

  /** The first index holding a touching along `v`, if any. */
  function FirstAlong(events: seq<Event>, v: Vector): (r: Option<nat>)
    ensures r.Some? ==> r.value < |events| && Along(events[r.value], v)
                        && forall j :: 0 <= j < r.value ==> !Along(events[j], v)
    ensures r.None? ==> forall j :: 0 <= j < |events| ==> !Along(events[j], v)
  {
    if events == [] then None
    else if Along(events[0], v) then Some(0)
    else match FirstAlong(events[1..], v)
      case None => None
      case Some(i) => Some(i + 1)
  }

  /**
   * The label of a half-edge the perimeter touches but never crosses: a
   * touching along the half-edge itself says it is on the perimeter (when
   * it leaves) or that only its reverse is (when it arrives); otherwise the
   * last touching, the one closest to the half-edge, decides: the half-edge
   * is inside exactly when that touching arrives.
   */
  function TouchLabel(events: seq<Event>, v: Vector): bool
    requires events != []
  {
    match FirstAlong(events, v)
    case Some(i) => events[i].out
    case None => !events[|events| - 1].out
  }

  /**
   * The first touching along the half-edge decides its label; without one,
   * the label is the opposite of the last event's `out`.
   */
  lemma TouchLabelAlong(events: seq<Event>, v: Vector, i: int)
    requires events != []
    ensures 0 <= i < |events| && Along(events[i], v) && (forall j :: 0 <= j < i ==> !Along(events[j], v)) ==>
              TouchLabel(events, v) == events[i].out
    ensures (forall j :: 0 <= j < |events| ==> !Along(events[j], v)) ==> TouchLabel(events, v) == !events[|events| - 1].out
  {
  }

  /**
   * The labels a half-edge with events gets from its own list: the first
   * crossing leaving means its beginning is inside, the last crossing
   * entering means its end is inside; without crossings, `TouchLabel` for both.
   */
  function OwnLabels(events: seq<Event>, v: Vector): (r: (bool, bool))
    requires events != []
    ensures !HasCrossing(events) ==> r.0 == r.1 == TouchLabel(events, v)
  {
    var cs := Crossings(events);
    if cs != [] then (cs[0].out, !cs[|cs| - 1].out)
    else var b := TouchLabel(events, v); (b, b)
  }

  /**
   * The labels of a crossed half-edge: its beginning is inside exactly when
   * its first crossing leaves, its end exactly when its last crossing enters.
   */
  lemma OwnLabelsCrossed(events: seq<Event>, v: Vector, i: int, k: int)
    requires FirstCrossingAt(events, i) && LastCrossingAt(events, k)
    ensures OwnLabels(events, v) == (events[i].out, !events[k].out)
  {
    CrossingsFirst(events, i);
    CrossingsLast(events, k);
  }

  /**
   * What phase one reads: one list per half-edge of the surface, closed under
   * reversal, with the vector and the previous half-edge of each known.
   */
  ghost predicate Indexed(s: Surface, touches: map<HalfEdge, seq<Event>>)
  {
    && ReversalClosed(touches.Keys)
    && touches.Keys <= s.vectors.Keys
    && touches.Keys <= s.previousAtVertex.Keys
    && forall h {:trigger s.Previous(h)} :: h in s.previousAtVertex ==> s.Previous(h) in touches
  }

  /** Every half-edge of `hs` has a list. */
  ghost predicate Listed(hs: seq<HalfEdge>, touches: map<HalfEdge, seq<Event>>)
  {
    forall k :: 0 <= k < |hs| ==> hs[k] in touches
  }

  lemma ValidIndexed(s: Surface, touches: map<HalfEdge, seq<Event>>)
    requires s.Valid() && touches.Keys == s.HalfEdgeSet()
    ensures Indexed(s, touches) && Listed(s.halfEdges, touches)
  {
    forall h | h in s.previousAtVertex
      ensures s.Previous(h) in touches
    {
      assert s.Previous(h) in s.halfEdges;
    }
  }

  /**
   * The entries phase one writes for half-edge `h`.  A half-edge without
   * events takes both labels, for itself and its reverse, from the first
   * event of the half-edge before it at the vertex, and writes nothing when
   * that list is empty too; a half-edge with events labels itself.
   */
  function Direct(s: Surface, touches: map<HalfEdge, seq<Event>>, h: HalfEdge): (r: Labels)
    requires Indexed(s, touches) && h in touches
    ensures r.start.Keys == r.end.Keys
    ensures r.start.Keys <= {h, -h}
  {
    var events := touches[h];
    if events == [] then
      var previous := s.Previous(h);
      if touches[previous] == [] then Labels(map[], map[])
      else
        var b := touches[previous][0].out;
        Labels(map[-h := b, h := b], map[h := b, -h := b])
    else
      var (b, c) := OwnLabels(events, s.vectors[h]);
      Labels(map[h := b], map[h := c])
  }

  /** Phase one over the half-edges `hs` in order; a later write replaces an earlier one. */
  function PhaseOne(s: Surface, touches: map<HalfEdge, seq<Event>>, hs: seq<HalfEdge>): (r: Labels)
    requires Indexed(s, touches) && Listed(hs, touches)
    ensures r.start.Keys == r.end.Keys
  {
    if hs == [] then Labels(map[], map[])
    else
      var before := PhaseOne(s, touches, hs[..|hs| - 1]);
      var last := hs[|hs| - 1];
      var d := Direct(s, touches, last);
      Labels(before.start + d.start, before.end + d.end)
  }

  /** Phase one writes only to half-edges of the surface. */
  lemma DirectKeys(s: Surface, touches: map<HalfEdge, seq<Event>>, h: HalfEdge)
    requires Indexed(s, touches) && h in touches
    ensures Direct(s, touches, h).start.Keys <= touches.Keys
  {
    assert Rev(h) in touches;
    forall k | k in Direct(s, touches, h).start
      ensures k in touches
    {
      assert k == h || k == Rev(h);
    }
  }

  lemma {:induction false} PhaseOneKeys(s: Surface, touches: map<HalfEdge, seq<Event>>, hs: seq<HalfEdge>)
    requires Indexed(s, touches) && Listed(hs, touches)
    ensures PhaseOne(s, touches, hs).start.Keys <= touches.Keys
  {
    if hs != [] {
      var before := hs[..|hs| - 1];
      PhaseOneKeys(s, touches, before);
      DirectKeys(s, touches, hs[|hs| - 1]);
    }
  }

  /**
   * A half-edge with events whose reverse has events too keeps the labels of
   * its own list: no other half-edge's pass writes to it.
   */
  lemma {:induction false} PhaseOneOwn(s: Surface, touches: map<HalfEdge, seq<Event>>, hs: seq<HalfEdge>, h: HalfEdge)
    requires Indexed(s, touches) && Listed(hs, touches)
    requires h in hs && touches[h] != [] && -h in touches && touches[-h] != []
    ensures var labels := PhaseOne(s, touches, hs);
            && h in labels.start
            && (labels.start[h], labels.end[h]) == OwnLabels(touches[h], s.vectors[h])
  {
    var before := hs[..|hs| - 1];
    var last := hs[|hs| - 1];
    if last != h {
      assert h in before by {
        assert hs == before + [last];
      }
      PhaseOneOwn(s, touches, before, h);
      PhaseOneUnchanged(s, touches, hs, h);
    } else {
      DirectOwn(s, touches, h);
    }
  }

  /** The pass of the last half-edge leaves the labels of `h` as the earlier passes wrote them. */
  lemma PhaseOneUnchanged(s: Surface, touches: map<HalfEdge, seq<Event>>, hs: seq<HalfEdge>, h: HalfEdge)
    requires Indexed(s, touches) && Listed(hs, touches) && hs != [] && hs[|hs| - 1] != h
    requires h in touches && touches[h] != [] && -h in touches && touches[-h] != []
    ensures var labels := PhaseOne(s, touches, hs);
            var before := PhaseOne(s, touches, hs[..|hs| - 1]);
            && (h in labels.start <==> h in before.start)
            && (h in labels.start ==> labels.start[h] == before.start[h] && labels.end[h] == before.end[h])
  {
    DirectElsewhere(s, touches, hs[|hs| - 1], h);
  }

  /** A half-edge with events writes its own labels and nothing else. */
  lemma DirectOwn(s: Surface, touches: map<HalfEdge, seq<Event>>, h: HalfEdge)
    requires Indexed(s, touches) && h in touches && touches[h] != []
    ensures Direct(s, touches, h).start == map[h := OwnLabels(touches[h], s.vectors[h]).0]
    ensures Direct(s, touches, h).end == map[h := OwnLabels(touches[h], s.vectors[h]).1]
  {
  }

  /** The pass of another half-edge does not write to a half-edge whose own and reverse lists have events. */
  lemma DirectElsewhere(s: Surface, touches: map<HalfEdge, seq<Event>>, g: HalfEdge, h: HalfEdge)
    requires Indexed(s, touches) && g in touches && g != h
    requires h in touches && touches[h] != [] && -h in touches && touches[-h] != []
    ensures h !in Direct(s, touches, g).start && h !in Direct(s, touches, g).end
  {
    if touches[g] == [] {
      assert g != -h;
    }
  }

  /** In particular a crossed half-edge, when crossings come in pairs, is labelled by its first and last crossing. */
  lemma CrossedLabels(s: Surface, touches: map<HalfEdge, seq<Event>>, h: HalfEdge)
    requires Indexed(s, touches) && Listed(s.halfEdges, touches) && CrossingSymmetric(touches)
    requires h in s.halfEdges && h in touches && HasCrossing(touches[h])
    ensures var labels := PhaseOne(s, touches, s.halfEdges);
            var cs := Crossings(touches[h]);
            && h in labels.start
            && labels.start[h] == cs[0].out
            && labels.end[h] == !cs[|cs| - 1].out
  {
    assert Rev(h) in touches && HasCrossing(touches[-h]);
    PhaseOneOwn(s, touches, s.halfEdges, h);
  }

  /**
   * The same read off the list itself: `start` is the `out` of the first
   * crossing of the list, `end` the opposite of the last crossing's `out`.
   */
  lemma CrossedLabelsAt(s: Surface, touches: map<HalfEdge, seq<Event>>, h: HalfEdge, i: int, k: int)
    requires Indexed(s, touches) && Listed(s.halfEdges, touches) && CrossingSymmetric(touches)
    requires h in s.halfEdges && h in touches
    requires FirstCrossingAt(touches[h], i) && LastCrossingAt(touches[h], k)
    ensures var labels := PhaseOne(s, touches, s.halfEdges);
            && h in labels.start
            && labels.start[h] == touches[h][i].out
            && labels.end[h] == !touches[h][k].out
  {
    assert HasCrossing(touches[h]) by {
      assert touches[h][i] in touches[h];
    }
    assert Rev(h) in touches && HasCrossing(touches[-h]);
    PhaseOneOwn(s, touches, s.halfEdges, h);
    OwnLabelsCrossed(touches[h], s.vectors[h], i, k);
  }

  /**
   * A half-edge without events, whose reverse has events and whose previous
   * half-edge at the vertex has events, gets the first event of that
   * previous list as both labels.
   */
  lemma {:induction false} PhaseOneFromPrevious(s: Surface, touches: map<HalfEdge, seq<Event>>, hs: seq<HalfEdge>, h: HalfEdge)
    requires Indexed(s, touches) && Listed(hs, touches)
    requires h in hs && touches[h] == [] && -h in touches && touches[-h] != []
    requires touches[s.Previous(h)] != []
    ensures var labels := PhaseOne(s, touches, hs);
            && h in labels.start
            && labels.start[h] == labels.end[h] == touches[s.Previous(h)][0].out
  {
    var before := hs[..|hs| - 1];
    var last := hs[|hs| - 1];
    if last != h {
      assert h in before by {
        assert hs == before + [last];
      }
      PhaseOneFromPrevious(s, touches, before, h);
      assert h !in Direct(s, touches, last).start;
    }
  }

  /** Without any events there is no evidence: phase one labels nothing. */
  lemma {:induction false} PhaseOneNothing(s: Surface, touches: map<HalfEdge, seq<Event>>, hs: seq<HalfEdge>)
    requires Indexed(s, touches) && Listed(hs, touches)
    requires forall g :: g in touches ==> touches[g] == []
    ensures PhaseOne(s, touches, hs).start == map[]
  {
    if hs != [] {
      PhaseOneNothing(s, touches, hs[..|hs| - 1]);
    }
  }

  /** The `for ... else` over a touched half-edge's list: the label `TouchLabel` describes. */
  method ScanTouchings(events: seq<Event>, v: Vector) returns (b: bool)
    requires events != []
    ensures b == TouchLabel(events, v)
  {
    var i := 0;
    while i < |events|
      invariant 0 <= i <= |events|
      invariant forall j :: 0 <= j < i ==> !Along(events[j], v)
    {
      if Along(events[i], v) {
        assert FirstAlong(events, v) == Some(i);
        return events[i].out;
      }
      i := i + 1;
    }
    b := !events[|events| - 1].out;
  }

  lemma UpdateIsUnion(m: map<HalfEdge, bool>, k: HalfEdge, b: bool)
    ensures m[k := b] == m + map[k := b]
  {
  }

  lemma UpdatesAreUnion(m: map<HalfEdge, bool>, k: HalfEdge, l: HalfEdge, b: bool)
    ensures m[k := b][l := b] == m + map[k := b, l := b]
  {
  }

  /** One pass of phase one: the writes for `h`, on top of what earlier passes wrote. */
  method DirectStep(s: Surface, touches: map<HalfEdge, seq<Event>>, h: HalfEdge, start: map<HalfEdge, bool>, end: map<HalfEdge, bool>)
    returns (start': map<HalfEdge, bool>, end': map<HalfEdge, bool>)
    requires Indexed(s, touches) && h in touches
    ensures start' == start + Direct(s, touches, h).start
    ensures end' == end + Direct(s, touches, h).end
  {
    ghost var d := Direct(s, touches, h);
    start', end' := start, end;
    if touches[h] == [] {
      var previous := s.Previous(h);
      if touches[previous] != [] {
        var b := touches[previous][0].out;
        UpdatesAreUnion(start, -h, h, b);
        UpdatesAreUnion(end, h, -h, b);
        start' := start'[-h := b];
        end' := end'[h := b];
        start' := start'[h := b];
        end' := end'[-h := b];
        assert d == Labels(map[-h := b, h := b], map[h := b, -h := b]);
      } else {
        assert d == Labels(map[], map[]);
        assert start == start + map[];
        assert end == end + map[];
      }
    } else {
      var crossings := Crossings(touches[h]);
      if crossings != [] {
        UpdateIsUnion(start, h, crossings[0].out);
        UpdateIsUnion(end, h, !crossings[|crossings| - 1].out);
        start' := start'[h := crossings[0].out];
        end' := end'[h := !crossings[|crossings| - 1].out];
        assert d == Labels(map[h := crossings[0].out], map[h := !crossings[|crossings| - 1].out]);
      } else {
        var b := ScanTouchings(touches[h], s.vectors[h]);
        UpdateIsUnion(start, h, b);
        UpdateIsUnion(end, h, b);
        start' := start'[h := b];
        end' := end'[h := b];
        assert d == Labels(map[h := b], map[h := b]);
      }
    }
  }

  /** Phase one as the loop over the surface's half-edges that fills `start` and `end`. */
  method DirectEvidence(s: Surface, touches: map<HalfEdge, seq<Event>>) returns (labels: Labels)
    requires Indexed(s, touches) && Listed(s.halfEdges, touches)
    ensures labels == PhaseOne(s, touches, s.halfEdges)
  {
    var start: map<HalfEdge, bool> := map[];
    var end: map<HalfEdge, bool> := map[];
    var i := 0;
    assert s.halfEdges[..0] == [];
    while i < |s.halfEdges|
      invariant 0 <= i <= |s.halfEdges|
      invariant Labels(start, end) == PhaseOne(s, touches, s.halfEdges[..i])
    {
      PhaseOnePrefix(s, touches, s.halfEdges, i);
      start, end := DirectStep(s, touches, s.halfEdges[i], start, end);
      i := i + 1;
    }
    assert s.halfEdges[..i] == s.halfEdges;
    labels := Labels(start, end);
  }

  /** Phase one over one more half-edge of `hs` adds that half-edge's pass to the labels so far. */
  lemma PhaseOnePrefix(s: Surface, touches: map<HalfEdge, seq<Event>>, hs: seq<HalfEdge>, i: nat)
    requires Indexed(s, touches) && Listed(hs, touches) && i < |hs|
    ensures Listed(hs[..i], touches) && Listed(hs[..i + 1], touches) && hs[i] in touches
    ensures PhaseOne(s, touches, hs[..i + 1]).start == PhaseOne(s, touches, hs[..i]).start + Direct(s, touches, hs[i]).start
    ensures PhaseOne(s, touches, hs[..i + 1]).end == PhaseOne(s, touches, hs[..i]).end + Direct(s, touches, hs[i]).end
  {
    assert hs[..i + 1][..i] == hs[..i];
  }

  /** `after` keeps every entry of `before`. */
  ghost predicate Extends(before: map<HalfEdge, bool>, after: map<HalfEdge, bool>)
  {
    forall k :: k in before ==> k in after && after[k] == before[k]
  }

  /** What the flood needs of the surface: the rotation and reversal stay among the half-edges. */
  ghost predicate Rotating(s: Surface)
  {
    && ReversalClosed(s.nextAtVertex.Keys)
    && forall h {:trigger s.Next(h)} :: h in s.nextAtVertex ==> s.Next(h) in s.nextAtVertex
  }

  lemma ValidRotating(s: Surface)
    requires s.Valid()
    ensures Rotating(s)
    ensures s.nextAtVertex.Keys == s.HalfEdgeSet()
  {
    forall h | h in s.nextAtVertex
      ensures s.Next(h) in s.nextAtVertex
    {
      assert s.Next(h) in s.halfEdges;
    }
  }

  /**
   * The flood from `source`: unless `source` is visited or unlabelled, mark
   * it visited and look at the half-edge `next` after it at the vertex.  If
   * `-next` has no end label, both of its labels become the start label of
   * `source` and the flood continues from `-next`; afterwards, if `next`
   * still has no start label, it gets the same labels and the flood continues
   * from it.
   *
   * No label is ever replaced, every new label is the start label of
   * `source`, every newly labelled half-edge has been flooded from, and every
   * half-edge visited by this call finds the reverse of its successor labelled.
   */
  method Flood(s: Surface, source: HalfEdge, labels: Labels, visited: set<HalfEdge>)
    returns (labels': Labels, visited': set<HalfEdge>)
    requires Rotating(s)
    requires labels.start.Keys == labels.end.Keys <= s.nextAtVertex.Keys
    requires visited <= labels.start.Keys
    ensures labels'.start.Keys == labels'.end.Keys <= s.nextAtVertex.Keys
    ensures visited <= visited' <= labels'.start.Keys
    ensures Extends(labels.start, labels'.start) && Extends(labels.end, labels'.end)
    ensures source !in labels.start || source in visited ==> labels' == labels && visited' == visited
    ensures source in labels.start ==> source in visited'
    ensures forall k :: k in labels'.start && k !in labels.start ==>
              && k in visited'
              && labels'.start[k] == labels.start[source]
              && labels'.end[k] == labels.start[source]
    ensures forall k {:trigger s.Next(k)} :: k in visited' && k !in visited ==> -s.Next(k) in labels'.end
    decreases s.nextAtVertex.Keys - visited
  {
    if source in visited || source !in labels.start {
      return labels, visited;
    }
    var value := labels.start[source];
    var next := s.Next(source);
    assert Rev(next) in s.nextAtVertex;
    if -next in labels.end {
      return labels, visited + {source};
    }
    var reached := Labels(labels.start[-next := value], labels.end[-next := value]);
    var afterBack, visitedBack := Flood(s, -next, reached, visited + {source});
    if next in afterBack.start {
      return afterBack, visitedBack;
    }
    var forward := Labels(afterBack.start[next := value], afterBack.end[next := value]);
    labels', visited' := Flood(s, next, forward, visitedBack);
  }

  /**
   * Phase two: a flood from every half-edge of the surface in turn, starting
   * from the phase-one labels and one shared visited set.
   */
  method FloodAll(s: Surface, labels: Labels) returns (labels': Labels)
    requires Rotating(s)
    requires labels.start.Keys == labels.end.Keys <= s.nextAtVertex.Keys
    ensures labels'.start.Keys == labels'.end.Keys <= s.nextAtVertex.Keys
    ensures Extends(labels.start, labels'.start) && Extends(labels.end, labels'.end)
    ensures forall k :: k in labels'.start ==> labels'.start[k] in labels.start.Values
    ensures forall k :: k in labels'.end ==> labels'.end[k] in labels.start.Values + labels.end.Values
    ensures labels.start == map[] ==> labels' == labels
  {
    labels' := labels;
    var visited: set<HalfEdge> := {};
    var i := 0;
    while i < |s.halfEdges|
      invariant 0 <= i <= |s.halfEdges|
      invariant labels'.start.Keys == labels'.end.Keys <= s.nextAtVertex.Keys
      invariant visited <= labels'.start.Keys
      invariant Extends(labels.start, labels'.start) && Extends(labels.end, labels'.end)
      invariant forall k :: k in labels'.start ==> labels'.start[k] in labels.start.Values
      invariant forall k :: k in labels'.end ==> labels'.end[k] in labels.start.Values + labels.end.Values
      invariant labels.start == map[] ==> labels' == labels
    {
      ghost var before := labels';
      labels', visited := Flood(s, s.halfEdges[i], labels', visited);
      forall k | k in labels'.start
        ensures labels'.start[k] in labels.start.Values
        ensures labels'.end[k] in labels.start.Values + labels.end.Values
      {
        if k !in before.start {
          assert before.start[s.halfEdges[i]] in labels.start.Values;
        }
      }
      i := i + 1;
    }
  }

  /** The closing assertions: every half-edge of `hs` has both labels. */
  method AllLabelled(hs: seq<HalfEdge>, labels: Labels) returns (ok: bool)
    ensures ok <==> forall j :: 0 <= j < |hs| ==> hs[j] in labels.start && hs[j] in labels.end
  {
    var i := 0;
    while i < |hs|
      invariant 0 <= i <= |hs|
      invariant forall j :: 0 <= j < i ==> hs[j] in labels.start && hs[j] in labels.end
    {
      if hs[i] !in labels.start || hs[i] !in labels.end {
        return false;
      }
      i := i + 1;
    }
    return true;
  }

  /** Labels for every half-edge of the list are labels for exactly the half-edges of the surface. */
  lemma LabelledEverywhere(s: Surface, labels: Labels)
    requires labels.start.Keys == labels.end.Keys <= s.HalfEdgeSet()
    requires forall j :: 0 <= j < |s.halfEdges| ==> s.halfEdges[j] in labels.start && s.halfEdges[j] in labels.end
    ensures labels.start.Keys == labels.end.Keys == s.HalfEdgeSet()
  {
    forall h | h in s.HalfEdgeSet()
      ensures h in labels.start
    {
      var j :| 0 <= j < |s.halfEdges| && s.halfEdges[j] == h;
    }
  }

  /**
   * `start` and `end` for every half-edge of the surface: phase one, then
   * the flood, then the check that nothing is left unlabelled.
   */
  method InComponent(s: Surface, touches: map<HalfEdge, seq<Event>>) returns (r: Result<Labels>)
    requires s.Valid() && touches.Keys == s.HalfEdgeSet()
    ensures Indexed(s, touches) && Listed(s.halfEdges, touches)
    ensures r.Success? ==> r.value.start.Keys == r.value.end.Keys == s.HalfEdgeSet()
    ensures r.Success? ==>
              && Extends(PhaseOne(s, touches, s.halfEdges).start, r.value.start)
              && Extends(PhaseOne(s, touches, s.halfEdges).end, r.value.end)
    ensures r.Success? ==> forall h :: h in r.value.start ==> r.value.start[h] in PhaseOne(s, touches, s.halfEdges).start.Values
    ensures r.Failure? ==> r.error == UnresolvedHalfEdge
    ensures PhaseOne(s, touches, s.halfEdges).start == map[] && s.halfEdges != [] ==> r == Failure(UnresolvedHalfEdge)
  {
    ValidIndexed(s, touches);
    var direct := DirectEvidence(s, touches);
    ValidRotating(s);
    PhaseOneKeys(s, touches, s.halfEdges);
    var labels := FloodAll(s, direct);
    var ok := AllLabelled(s.halfEdges, labels);
    if direct.start == map[] && s.halfEdges != [] {
      assert s.halfEdges[0] !in labels.start;
    }
    if !ok {
      return Failure(UnresolvedHalfEdge);
    }
    LabelledEverywhere(s, labels);
    r := Success(labels);
  }
}
