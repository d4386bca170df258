# Flow-component encoding of ipyvue-flatsurf, modelled in Dafny

ipyvue-flatsurf draws a flow component of a translation surface. A flow component is a region bounded by saddle connections. The widget needs to know where the perimeter of that region passes through the half-edges of the triangulation, and which half-edges lie inside the region. The Python code computes this in two copies that run the same pipeline:

- the `Encoder` class (`encoding/flow_component_encoding.py`);
- the older inline function `component_to_map` (`flatsurf.py`).

The model follows that pipeline module by module:

| module | file | what it models |
|---|---|---|
| `Errors` | errors.dfy | the assertion failures and lookup errors, as a `Result` |
| `Surfaces` | surfaces.dfy | half-edges as nonzero integers with `-h` as the reverse; exact vectors with `ccw`; saddle connections with their path and the path of their reverse; a surface with its rotations |
| `Deformations` | deformations.dfy | `pullback` / `deform`: a connection becomes the steps it is made of |
| `Perimeters` | perimeters.dfy | the two `perimeter` filters, and the nested curve/step order |
| `Sorting` | sorting.dfy | `list.sort()` under a hand-written `__lt__` that may hit `assert False` |
| `Events` | events.dfy | `Touching` / `Crossing` and their `__lt__` |
| `EventIndex` | event_index.dfy | `touches`: the events each step appends to the per-half-edge lists, then the sort |
| `RegionClassifier` | region.dfy | `in_component`: phase one, the recursive `flood`, and the exhaustiveness assertions |
| `Assembly` | assembly.dfy | `encoded` and the result of `component_to_map`: `inside`, the per-step tuples `(n, halfEdge, index)`, and the records |

Imperative parts stay imperative:

- Filling the lists is a loop of appends (`EventIndex.FileCrossings`, `EventIndex.FileStep`, `EventIndex.FileSteps`, `EventIndex.FilePerimeter`), proved against the functions `StepEvents` and `PerimeterEvents`.
- Sorting is an insertion sort on each list (`Sorting.InsertionSort`).
- Phase one is a loop that writes `start` / `end` (`RegionClassifier.DirectEvidence`), proved against the function `PhaseOne`.
- The flood is recursive, in the source's depth-first order, and never overwrites a label (`RegionClassifier.Flood`).

No class is used. The `Encoder` only caches values and never updates them, so each method takes its inputs and returns a new value.

Failures the Python code raises are results of the `Error` datatype:

- `DomainMismatch`, `EmptyPullback`, `VectorMismatch`: the pullback's assertion on the connection's surface, the empty image (`connections[0]`), and the vector-sum assertion.
- `PathAsymmetry`: the path-length or path-symmetry assertion while appending events.
- `UnknownHalfEdge`: a `KeyError` on a half-edge the surface does not have.
- `AmbiguousOrdering`: `assert False` in a comparison during a sort.
- `UnresolvedHalfEdge`: the exhaustiveness assertions at the end of `in_component`.

Three details of the Python code that the model keeps as written:

- With no perimeter curves (or, on a non-cylinder, none marked as boundary) and a surface that has half-edges, phase one labels nothing and the flood has nothing to spread. The exhaustiveness assertions at `encoding/flow_component_encoding.py:366-367` (and `flatsurf.py:214-215`) then fail, so the pipeline does not return an encoding for an empty perimeter. `Assembly.Classify`, `Assembly.Encode` and `Assembly.ComponentToMap` prove the failure.
- Each path point appends an *entering* crossing (`out=False`) on the step's own half-edge first (`flow_component_encoding.py:151`), then a *leaving* one (`out=True`) on the opposite half-edge (`:154`).
- Two touchings compare by `self.vector.ccw(rhs.vector) == 1` first (`flow_component_encoding.py:402`, `flatsurf.py:88`), with the comment `# = CW` beside it. The value 1 is libflatsurf's `COUNTERCLOCKWISE`. The model follows the value: `a` sorts first when `b` lies counterclockwise of it.

## Model

| member | source | states |
|---|---|---|
| Deformations.Pullback | ipyvue_flatsurf/encoding/flow_component_encoding.py:206-214 | Without a deformation the result is exactly `[connection]`. With one, it fails unless the connection is on the deformation's domain, and it succeeds exactly when the image is nonempty and sums to the connection's vector. A success is the image itself, nonempty, with that vector sum (the same code as `deform` in flatsurf.py). |
| Perimeters.BoundaryCurves | ipyvue_flatsurf/encoding/flow_component_encoding.py:261-262 | The encoder's perimeter: an order-preserving subsequence of the component's perimeter. It holds exactly the curves that are marked as boundary, or every curve for a cylinder, where it is the whole list. |
| Perimeters.Perimeter | ipyvue_flatsurf/encoding/flow_component_encoding.py:261-262 | The encoder's `perimeter` of a component: an order-preserving subsequence of its perimeter holding exactly the curves of a cylinder, or those marked as boundary. |
| Perimeters.SeparatingCurves | ipyvue_flatsurf/flatsurf.py:60-61 | The map encoding's perimeter: an order-preserving subsequence holding exactly the curves whose reverse lies in another component, or every curve for a cylinder. |
| Perimeters.LegacyPerimeter | ipyvue_flatsurf/flatsurf.py:60-61 | `perimeter(component)`: an order-preserving subsequence of the component's perimeter holding exactly the curves of a cylinder, or those whose reverse lies in another component. |
| Perimeters.Steps | ipyvue_flatsurf/encoding/flow_component_encoding.py:99 | The (curve, step) pairs succeed exactly when every curve pulls back. There is exactly one entry per step of every curve's pullback (the length is the total number of steps). Every entry comes from a curve of the list and a step of its pullback, and every such pair occurs. |
| Perimeters.StepsAt | ipyvue_flatsurf/encoding/flow_component_encoding.py:99 | Nested order: step `k` of curve `i` sits at position (steps of the curves before `i`) + `k` (the same comprehension as `ipyvue_flatsurf/flatsurf.py`:243). |
| Events.Precedes | ipyvue_flatsurf/encoding/flow_component_encoding.py:399-433 | The two `__lt__` methods (and `ipyvue_flatsurf/flatsurf.py`:86-119). A comparison reaches `assert False` exactly when both events are of the same kind and have the same `out`, and they are collinear touchings or crossings at the same position. |
| Events.PrecedesAntisymmetric | ipyvue_flatsurf/encoding/flow_component_encoding.py:399-433 | The two `__lt__` methods are antisymmetric: `a < b` returns True exactly when `b < a` returns False, so a pair that reaches `assert False` does so in both directions. |
| Events.PrecedesIrreflexive | ipyvue_flatsurf/encoding/flow_component_encoding.py:399-433 | Comparing an event with itself always reaches `assert False`. |
| Events.TouchingsFirst | ipyvue_flatsurf/encoding/flow_component_encoding.py:399-433 | In a list sorted by `__lt__`, every touching precedes every crossing. |
| Events.CrossingsInPositionOrder | ipyvue_flatsurf/encoding/flow_component_encoding.py:422-433 | In a sorted list, any two crossings are in intersection order, with the leaving one first at equal positions. |
| Events.TouchingsByAngle | ipyvue_flatsurf/encoding/flow_component_encoding.py:399-410 | Neighbouring touchings in a sorted list are ordered by `ccw`, and collinear ones have the leaving touching first. |
| Sorting.Insert | ipyvue_flatsurf/encoding/flow_component_encoding.py:161-162 | One insertion step: the result is the input plus the new element, ordered neighbour by neighbour. It fails only when the new element meets an element it cannot be compared with. |
| Sorting.InsertionSort | ipyvue_flatsurf/encoding/flow_component_encoding.py:161-162 | On success the list is a permutation of its input, and every element strictly precedes the next. On failure two entries at different positions tie. |
| Sorting.OrderedPairwise | ipyvue_flatsurf/flatsurf.py:144-145 | With a transitive comparison, a list ordered neighbour by neighbour is ordered pair by pair. |
| Sorting.SortedHasNoTie | ipyvue_flatsurf/flatsurf.py:144-145 | With a transitive comparison, a successful sort shows that no two different entries of the input tie. |
| EventIndex.CrossingEvents | ipyvue_flatsurf/encoding/flow_component_encoding.py:145-154 | The crossings of a step succeed exactly when every point of the path pairs with the reversed point on the opposite half-edge, both half-edges being known. On success there are two events per point. Failures are `PathAsymmetry` or `UnknownHalfEdge`, and the latter comes with an unknown half-edge. |
| EventIndex.CrossingEventsShape | ipyvue_flatsurf/encoding/flow_component_encoding.py:147-154 | Path point `m` contributes entries `2m` and `2m+1`: an entering crossing numbered `2m+2` on the step's own half-edge, then a leaving one numbered `2m+3` on the reversed path's half-edge. |
| EventIndex.StepEvents | ipyvue_flatsurf/encoding/flow_component_encoding.py:141-157 | The events one step appends. A failure is a `KeyError` (`UnknownHalfEdge`) or a path assertion (`PathAsymmetry`). A success appends exactly `2k+2` events for a path of `k` points. |
| EventIndex.StepEventsSucceed | ipyvue_flatsurf/encoding/flow_component_encoding.py:141-157 | A step appends its events exactly when its source and target are known, both paths have the same length and every point pairs up. When all its half-edges are known, it fails exactly when the path is asymmetric, and then with `PathAsymmetry`. |
| EventIndex.StepEventsShape | ipyvue_flatsurf/encoding/flow_component_encoding.py:141-157 | A step with `k` path points appends exactly `2k+2` events, numbered `1..2k+2` and tagged with the step. The first is `Touching(1, out=True)` at the source along the step's vector, and the last is `Touching(2k+2, out=False)` at the target with the vector negated. In between, entering/leaving crossing pairs sit on opposite half-edges (emission in flatsurf.py:123-140 is the same). |
| EventIndex.StepsEvents | ipyvue_flatsurf/encoding/flow_component_encoding.py:140-157 | The events of a curve's steps, step after step. Its only failures are `UnknownHalfEdge` and `PathAsymmetry`. |
| EventIndex.StepsEventsSucceed | ipyvue_flatsurf/encoding/flow_component_encoding.py:140-157 | The steps of a curve are all filed exactly when each step is. |
| EventIndex.PerimeterEvents | ipyvue_flatsurf/encoding/flow_component_encoding.py:139-157 | The events of the whole perimeter, curve by curve. It never fails with a sorting or labelling error. |
| EventIndex.PerimeterEventsSucceed | ipyvue_flatsurf/encoding/flow_component_encoding.py:139-157 | The perimeter is filed exactly when every curve pulls back and all the steps of each curve are filed. |
| EventIndex.EventsAt | ipyvue_flatsurf/encoding/flow_component_encoding.py:139-157 | The list of a half-edge holds exactly the events appended under it. |
| EventIndex.Append | ipyvue_flatsurf/encoding/flow_component_encoding.py:142 | `touches[h].append(event)`: the lists become the buckets of the appended events, and an unknown half-edge fails with the `KeyError`. |
| EventIndex.FileStep | ipyvue_flatsurf/encoding/flow_component_encoding.py:140-157 | The append loop of one step leaves the lists equal to the buckets of `StepEvents`, or returns its failure. |
| EventIndex.FileCrossings | ipyvue_flatsurf/encoding/flow_component_encoding.py:146-154 | The loop over the points of one step's path fails with the error of `CrossingEvents` (an asymmetric pair or an unknown half-edge). On success it leaves the lists equal to the buckets of the events so far followed by the step's crossings, entering before leaving. |
| EventIndex.FileSteps | ipyvue_flatsurf/encoding/flow_component_encoding.py:141-157 | The loop over one pullback's steps fails with the error of `StepsEvents`. On success it leaves the lists equal to the buckets of the events so far followed by every step's events, in step order. |
| EventIndex.FilePerimeter | ipyvue_flatsurf/encoding/flow_component_encoding.py:139-157 | The nested loop over curves and steps fails with the error of `PerimeterEvents` (the pullback's or the step's). On success it leaves one list per half-edge holding that half-edge's events in appending order. |
| EventIndex.StepEventsMirrored | ipyvue_flatsurf/encoding/flow_component_encoding.py:147-154 | The half-edges a step crosses are closed under reversal. |
| EventIndex.PerimeterEventsMirrored | ipyvue_flatsurf/encoding/flow_component_encoding.py:139-157 | The half-edges the whole perimeter crosses are closed under reversal. |
| EventIndex.BucketsCrossingSymmetric | ipyvue_flatsurf/encoding/flow_component_encoding.py:139-157 | In the filled lists, `h` has a crossing exactly when `-h` has one. |
| EventIndex.SortedTouchesSymmetric | ipyvue_flatsurf/encoding/flow_component_encoding.py:161-162 | Sorting keeps that symmetry. |
| EventIndex.SortEach | ipyvue_flatsurf/encoding/flow_component_encoding.py:161-162 | Every list is sorted in place into an ordered permutation of itself. A failure is `AmbiguousOrdering` and comes with a list that holds a tie. |
| EventIndex.Touches | ipyvue_flatsurf/encoding/flow_component_encoding.py:135-164 | `touches`: the errors of event emission pass through. On success there is one list per half-edge of the surface, ordered by `__lt__`, and a permutation of the events appended under that half-edge. A failure after successful emission is `AmbiguousOrdering` with a tied list. `h` is crossed exactly when `-h` is. |
| RegionClassifier.Crossings | ipyvue_flatsurf/encoding/flow_component_encoding.py:318 | The crossings of a list: an order-preserving subsequence holding exactly the crossings of the list. It is empty exactly when the list has no crossing. |
| RegionClassifier.CrossingsFirst | ipyvue_flatsurf/encoding/flow_component_encoding.py:318-322 | `crossings[0]` is the first crossing of the list. |
| RegionClassifier.CrossingsLast | ipyvue_flatsurf/encoding/flow_component_encoding.py:318-323 | `crossings[-1]` is the last crossing of the list. |
| RegionClassifier.FirstAlong | ipyvue_flatsurf/encoding/flow_component_encoding.py:326-335 | The first touching along the half-edge's own vector: nothing along it before that index, and none at all when absent. |
| RegionClassifier.TouchLabelAlong | ipyvue_flatsurf/encoding/flow_component_encoding.py:326-339 | An uncrossed half-edge: the first touching along its own vector gives its label (`out`). Without such a touching the label is the opposite of the last event's `out`. |
| RegionClassifier.OwnLabels | ipyvue_flatsurf/encoding/flow_component_encoding.py:318-339 | The labels a half-edge reads off its own list. An uncrossed half-edge gets the same label for `start` and `end`. |
| RegionClassifier.OwnLabelsCrossed | ipyvue_flatsurf/encoding/flow_component_encoding.py:318-323 | For a crossed half-edge, `start` is the `out` of the first crossing of the list and `end` is the opposite of the last crossing's `out`. |
| RegionClassifier.ScanTouchings | ipyvue_flatsurf/encoding/flow_component_encoding.py:326-339 | The `for … else` loop gives the touching's `out` for the first touching along the half-edge, and otherwise not the last touching's `out`. |
| RegionClassifier.Direct | ipyvue_flatsurf/encoding/flow_component_encoding.py:307-339 | One pass of phase one writes the same keys to `start` and `end`, and only `h` and `-h`. |
| RegionClassifier.PhaseOne | ipyvue_flatsurf/encoding/flow_component_encoding.py:305-339 | Phase one writes the same keys to both maps. |
| RegionClassifier.PhaseOneKeys | ipyvue_flatsurf/encoding/flow_component_encoding.py:305-339 | Phase one writes only half-edges of the surface. |
| RegionClassifier.PhaseOneOwn | ipyvue_flatsurf/encoding/flow_component_encoding.py:316-339 | A half-edge with events whose reverse has events keeps the labels read off its own list. |
| RegionClassifier.CrossedLabels | ipyvue_flatsurf/encoding/flow_component_encoding.py:318-323 | A crossed half-edge gets `start` = the first crossing's `out` and `end` = not the last crossing's `out`. |
| RegionClassifier.CrossedLabelsAt | ipyvue_flatsurf/encoding/flow_component_encoding.py:318-323 | After phase one, a crossed half-edge of the surface has `start` = `out` of its first crossing and `end` = not `out` of its last crossing. |
| RegionClassifier.PhaseOneFromPrevious | ipyvue_flatsurf/encoding/flow_component_encoding.py:308-315 | Take an empty half-edge whose reverse has events and whose previous half-edge at the vertex has events. It gets both labels from the first event of that previous list. |
| RegionClassifier.PhaseOneNothing | ipyvue_flatsurf/encoding/flow_component_encoding.py:308-313 | With no events anywhere, phase one labels nothing. |
| RegionClassifier.DirectStep | ipyvue_flatsurf/encoding/flow_component_encoding.py:307-339 | The loop body writes exactly the entries `Direct` gives for the half-edge, over what was there. |
| RegionClassifier.DirectEvidence | ipyvue_flatsurf/encoding/flow_component_encoding.py:302-339 | The phase-one loop over the surface's half-edges computes `PhaseOne`. |
| RegionClassifier.Flood | ipyvue_flatsurf/encoding/flow_component_encoding.py:344-361 | The keys of `start` and `end` stay equal and on the surface, and no label is ever replaced. A visited or unlabelled source changes nothing, and a labelled one is marked visited. Every new label, in both maps, is the source's start label, and its half-edge is marked visited. Every half-edge visited by the call finds the reverse of its successor at the vertex labelled in `end`. |
| RegionClassifier.FloodAll | ipyvue_flatsurf/encoding/flow_component_encoding.py:363-364 | The flood from every half-edge keeps all phase-one labels. Each new start label is an existing start label, and each new end label an existing label. Without any phase-one labels it changes nothing. |
| RegionClassifier.AllLabelled | ipyvue_flatsurf/encoding/flow_component_encoding.py:366-367 | The closing assertions hold exactly when every half-edge of the list has both labels. |
| RegionClassifier.InComponent | ipyvue_flatsurf/encoding/flow_component_encoding.py:264-369 | On success `start` and `end` cover exactly the surface's half-edges, extend the phase-one labels, and hold only values phase one produced. The only failure is `UnresolvedHalfEdge`, and it is certain when phase one labels nothing on a surface with half-edges (flatsurf.py:154-215 is the same). |
| Assembly.Inside | ipyvue_flatsurf/encoding/flow_component_encoding.py:81 | `inside` holds exactly the half-edges with both labels true and no crossing, as an order-preserving subsequence of the surface's half-edges (flatsurf.py:217 is the same). |
| Assembly.RefBelow | ipyvue_flatsurf/encoding/flow_component_encoding.py:85 | The order `sorted` puts on `(n, halfEdge, index)` tuples: a tuple never precedes itself, and `n` compares first. |
| Assembly.RefBelowStrictTotal | ipyvue_flatsurf/encoding/flow_component_encoding.py:85 | That order is a strict total order: irreflexive, asymmetric, total on distinct tuples, transitive. |
| Assembly.SortRefs | ipyvue_flatsurf/encoding/flow_component_encoding.py:85 | `sorted` on the tuples gives an ascending permutation with the same elements. |
| Assembly.RefsIn | ipyvue_flatsurf/encoding/flow_component_encoding.py:83-85 | The tuples of one list are exactly `(n, h, i)` for the events at positions `i` that belong to the step. |
| Assembly.Collected | ipyvue_flatsurf/encoding/flow_component_encoding.py:85 | The tuples of a step are exactly those naming a position of some half-edge's list whose event belongs to the step, with that event's `n`. |
| Assembly.CollectedDistinct | ipyvue_flatsurf/encoding/flow_component_encoding.py:85 | Over distinct half-edges, no tuple is collected twice. |
| Assembly.StepRefsStrict | ipyvue_flatsurf/encoding/flow_component_encoding.py:85 | A step's sorted tuples are strictly ascending, so every event of the step is listed once. |
| Assembly.PerimeterEventsSteps | ipyvue_flatsurf/encoding/flow_component_encoding.py:89-98 | Once the events were emitted, the second pullback of every curve (for the records) succeeds. |
| Assembly.Classify | ipyvue_flatsurf/encoding/flow_component_encoding.py:74-85 | The shared pipeline fails with the emission error, or else with `AmbiguousOrdering` or `UnresolvedHalfEdge`. On success the lists, labels, interior and steps are what `touches`, `in_component`, `inside` and the pullbacks promise, including that every label is a value phase one produced. With no curves on a surface with half-edges it fails with `UnresolvedHalfEdge`. |
| Assembly.EncodedOf | ipyvue_flatsurf/encoding/flow_component_encoding.py:89-100 | One record per (curve, step) in nested order, carrying the curve's `vertical` and `boundary` and the step. Its touches are the ascending permutation of the step's tuples, holding exactly the tuples that refer to that step's events. The `cylinder` flag and `inside` are passed through. |
| Assembly.Encode | ipyvue_flatsurf/encoding/flow_component_encoding.py:74-101 | `encoded` on the encoder's perimeter: it has the pipeline's errors, and its success is `EncodedOf` of a layout satisfying `Laid`. With no boundary curves on a surface with half-edges it fails with `UnresolvedHalfEdge`. |
| Assembly.MapOf | ipyvue_flatsurf/flatsurf.py:224-245 | One map record per (curve, step): the step's source, target, vector and path as crossings, the curve's `vertical`, and `boundary` = the curve's component differs from its reverse's. The touches and `inside` are as in the encoder. |
| Assembly.ComponentToMap | ipyvue_flatsurf/flatsurf.py:51-245 | `component_to_map` on its own perimeter filter: the pipeline's errors, and on success `MapOf` of a layout satisfying `Laid`. With no separating curves on a surface with half-edges it fails with `UnresolvedHalfEdge`. |

## Left out

- The external collaborators are parameters rather than code: the surface, the flow decomposition, the deformation's action on a path, and `ccw`. Vectors are exact integer pairs, and `ccw` is the sign of their cross product. An intersection's position on its half-edge is an integer rank. The reversed connection's path is a field of the saddle connection.
- The surface the component is drawn on (the decomposition's surface, or the deformation's codomain) is an input of `Encode` and `ComponentToMap`. The model does not check that it is the deformation's codomain.
- `encode_saddle_connection` and the float conversions of vector coordinates (`float(step.vector().x())`) are out of scope. A record keeps the step itself, and the map record keeps its exact vector.
- Dict ordering: the tuples of a step are collected over the surface's half-edges in the surface's order. Python uses the key order of `touches`, which is that same order, and sorts the result anyway.
- Sorting.InsertionSort: Python's `list.sort` (timsort) compares different pairs than an insertion sort. Both produce the same ordered result when no pair ties and `__lt__` is transitive on the list. They may fail on different inputs when a tie is present, so the model's failure condition is the insertion sort's.
- `@cache` on `touches`, `in_component` and `perimeter` is memoisation and is not modelled. The second pullback for the records recomputes the same value.
- The doctests rely on pyflatsurf surfaces (the square torus, McMullen's L) whose geometry is not part of this model.
- Assembly.EncodedOf: a record's touches keep the whole sorted tuples `(n, halfEdge, index)`. Python keeps only `halfEdge` and `index` of each, in the same order (`flow_component_encoding.py:94-97`, `flatsurf.py:239-242`). Dropping `n` is a map over the list.
- Assembly.MapOf: the same for the map records' touches.
- RegionClassifier.Flood: Python's recursive `flood` raises `RecursionError` when the recursion grows past the interpreter's limit (1000 frames by default) on a large surface. The model's recursion is unbounded, so it does not capture that failure.
- YAML serialisation, the widgets and the front end are not part of the model.
