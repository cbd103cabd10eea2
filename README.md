# CoupRliec face search, in Dafny

This project models the discrete core of CoupRliec, an exact minimiser of a strictly convex function over a polyhedron.

**The engine.** It does not descend. It tries the faces of the polyhedron level by level:
- first the whole space (codimension 0);
- then every face of codimension 1, 2, …, up to min(N, dim), where N is the number of half-spaces.

On each face it takes the restricted minimum. It stops at the first one that meets the necessary criterion and also lies in the polyhedron.

**The model.** It keeps the engine's combinatorial skeleton:
- A face is the strictly increasing sequence of its active half-space indices.
- Level k+1 is built from level k by appending only indices above a face's last one.
- A level is collected into a map keyed by `FaceKey`, the set of the face's indices.
- A diagnostic counter counts the faces whose minimum met the necessary criterion.
- The closed-form number of faces the search may visit is Σ C(N, i).

Three neighbouring pieces are modelled as well:
- The hash-table key of affine spaces (`ASKey`): a fixed hash, and an equality that dispatches on the first of four key classes the argument is an instance of.
- The per-space failure memo of the projection search (`ASFail`): the fields `failed`, `mightContProj` and `checked`, and the scan over the one-down neighbours.
- The projection walk of a polyhedral cone (`PolytopeCone.proj`): a cycle search over the successor map "nearest half-space to the projection onto this one".

All geometry (restricted minima, membership tests, half-space tests, distances, projections) is passed in as functions. What is proved is the control flow, counting and state around that geometry.

Files:
- `wrappers.dfy`: `Option` and `Result`.
- `combinatorics.dfy`: `Choose` (Pascal's rule) and its partial sums `SumChoose`.
- `faces.dfy`: faces, levels, and their counts.
- `coup_rliec.dfy`: the engine (`class CoupRliec`), the level map, the search and the counter.
- `askey.dfy`: keys and their equality.
- `asfail.dfy`: the failure memo (`class ASFail`) and its scan, specified by the function `ScanFrom`.
- `polytope_cone.dfy`: the cone (`class PolytopeCone`) and its projection walk.

Java exceptions become `Failure` values:
- `dim()` on a polyhedron with no half-spaces;
- `lowerLevel.get` returning null in `mightContainProj`;
- `Optional.get` on an empty cone.

## Model

| member | source | states |
|---|---|---|
| CoupRliecEngine.CoupRliec.constructor | src/Hilbert/Optimization/CoupRliec.java:38-41 | keeps f and the polyhedron; the counter starts at 0 (line 137) |
| CoupRliecEngine.CoupRliec.Dim | src/Hilbert/Optimization/CoupRliec.java:90-93 | fails exactly when there are no half-spaces; otherwise the dimension of the first half-space's normal |
| CoupRliecEngine.CoupRliec.NumSequentialIterations | src/Hilbert/Optimization/CoupRliec.java:129-131 | fails exactly when there are no half-spaces; otherwise the smaller of N and dim |
| CoupRliecEngine.CoupRliec.TotallNumberOfAffineSpaces | src/Hilbert/Optimization/CoupRliec.java:47-52 | the loop sum is Σ C(N, i) for i = 0..min(N, dim), and this is the number of faces of codimension at most min(N, dim) |
| Faces.FacesUpToCard | src/Hilbert/Optimization/CoupRliec.java:47-52 | the faces of codimension at most m number SumChoose(N, m) |
| Combinatorics.SumChooseRow | src/Hilbert/Optimization/CoupRliec.java:47-52 | when min(N, dim) = N, the total is 2^N |
| Faces.LevelMembers | src/Hilbert/Optimization/CoupRliec.java:71-81 | starting from the whole space, level k holds exactly the strictly increasing length-k index sequences over 0..N-1 |
| Faces.LevelCard | src/Hilbert/Optimization/CoupRliec.java:71-81 | level k has C(N, k) faces |
| Faces.LevelsDisjoint | src/Hilbert/Optimization/CoupRliec.java:153-159 | no face is produced on two levels |
| Faces.SameKeySameFace | src/Hilbert/Optimization/CoupRliec.java:76-79 | two increasing faces with the same index set are the same face, so a key names one face |
| Faces.LevelKeysDistinct | src/Hilbert/Optimization/CoupRliec.java:76-79 | the faces of one level have pairwise distinct keys |
| CoupRliecEngine.CoDimPlusPlus | src/Hilbert/Optimization/CoupRliec.java:71-81 | the map's values are the extensions of the previous faces by each index above their last one, each under its own key; it fails (toMap's duplicate key) exactly when two extensions share a key |
| CoupRliecEngine.ChildKeysDistinct | src/Hilbert/Optimization/CoupRliec.java:73-79 | two (face, index) pairs of one level that give the same key are the same pair |
| CoupRliecEngine.CoDimPlusPlusLevel | src/Hilbert/Optimization/CoupRliec.java:71-81 | applied to level k it never meets a duplicate key and yields exactly level k+1 |
| CoupRliecEngine.CoDimPlusPlusLevelSize | src/Hilbert/Optimization/CoupRliec.java:71-81 | the map built from level k has C(N, k+1) entries |
| CoupRliecEngine.CoupRliec.SuffCrit | src/Hilbert/Optimization/CoupRliec.java:101-104 | true iff the candidate meets the necessary criterion and lies in the polyhedron; the counter grows by one exactly when the necessary criterion holds |
| CoupRliecEngine.CoupRliec.PosMinOnLevel | src/Hilbert/Optimization/CoupRliec.java:115-122 | None iff no face of the level passes; a result is the minimum of a passing face; a None adds every face meeting the necessary criterion to the counter, a result adds at least one and at most those |
| CoupRliecEngine.CoupRliec.SearchNextLevel | src/Hilbert/Optimization/CoupRliec.java:155-158 | one pass of the loop: builds level i+1 and returns a result exactly when that level has a passing face |
| CoupRliecEngine.CoupRliec.ArgMin | src/Hilbert/Optimization/CoupRliec.java:143-162 | a passing whole space is returned at once after one count; fails only with no half-spaces and a failing whole space; None iff no level up to min(N, dim) has a passing face; a result is the minimum of a passing face on the first such level; the counter only grows, by at most the faces that meet the necessary criterion up to min(N, dim) |
| CoupRliecEngine.CoupRliec.SearchLevels | src/Hilbert/Optimization/CoupRliec.java:153-161 | the level loop: None iff levels 0..n all fail, else a passing face's minimum on the first level 1..n that has one, with exact counter bounds |
| CoupRliecEngine.FoundOnWholeSpace | src/Hilbert/Optimization/CoupRliec.java:150-151 | a passing whole space is the first passing level, and the search does not fail |
| CoupRliecEngine.FoundOnNextLevel | src/Hilbert/Optimization/CoupRliec.java:156-158 | a passing face found on level i+1 after levels 0..i failed is the search's answer on the first passing level |
| CoupRliecEngine.FailsThroughAll | src/Hilbert/Optimization/CoupRliec.java:153-160 | the loop's "levels 0..k failed" invariant is the same as every level up to k failing |
| CoupRliecEngine.NecBelowBound | src/Hilbert/Optimization/CoupRliec.java:102 | the faces counted in levels 0..m never exceed SumChoose(N, m) |
| CoupRliecEngine.NecBelowMonotone | src/Hilbert/Optimization/CoupRliec.java:102 | the counts of the lower levels grow with the number of levels |
| CoupRliecEngine.CoupRliec.FracAffineSpacesChecked | src/Hilbert/Optimization/CoupRliec.java:58-61 | as written: runs ArgMin once more, without resetting the counter, and divides the accumulated counter by the total |
| CoupRliecEngine.FracExceedsOneOnSecondCall | src/Hilbert/Optimization/CoupRliec.java:58-61 | on one engine the first call gives 1.0 and the second 2.0 |
| CoupRliecEngine.CoupRliec.FracAffineSpacesCheckedPerRun | src/Hilbert/Optimization/CoupRliec.java:58-61 | with the counter reset first, the fraction lies in [0, 1] |
| ASKeys.NewKey | src/Convex/ASKeys/ASKey.java:20-22 | the key's hash is the value given to the constructor |
| ASKeys.HashCode | src/Convex/ASKeys/ASKey.java:24-27 | hashCode() returns exactly the value the key was built with: the constructor applied to the key's identity, class and hash code gives back the key |
| ASKeys.DefaultEquals | src/Convex/ASKeys/ASKey.java:47-49 | the default equals(ASKey) holds iff the two hash codes agree |
| ASKeys.Equals | src/Convex/ASKeys/ASKey.java:29-40 | true for the object itself; false for null and for non-keys; otherwise the overload of the first of ASKeyAS, ASKeyPlanes, ASKeyRI, ASKeyPCo (in the order of lines 34-37) that the argument is an instance of, or hash equality when it is an instance of none |
| ASKeys.EqualsReflexive | src/Convex/ASKeys/ASKey.java:31 | every key equals itself whatever the overloads do |
| ASKeys.DefaultEqualsEquivalence | src/Convex/ASKeys/ASKey.java:47-49 | the default equality is reflexive, symmetric and transitive |
| ASKeys.EqualsRespectsHash | src/Convex/ASKeys/ASKey.java:24-49 | when the four overloads relate only keys with equal hashes, equals(Object) does too (the hashCode contract) |
| ASKeys.EqualsOtherByHash | src/Convex/ASKeys/ASKey.java:39 | a key that is an instance of none of the four classes is equal exactly to the keys with its hash |
| ASFails.ASFail.constructor | src/Convex/thesisProjectionIdeas/GradDescentFeasibility/Proj/ASFail.java:31-36 | a new memo has no failure point, an empty checked set and mightContProj false |
| ASFails.ASFail.SetMightContainProj | src/Convex/thesisProjectionIdeas/GradDescentFeasibility/Proj/ASFail.java:42-45 | sets mightContProj and returns the memo itself |
| ASFails.ASFail.Fail | src/Convex/thesisProjectionIdeas/GradDescentFeasibility/Proj/ASFail.java:73-77 | records the point, empties checked, clears mightContProj and returns false |
| ASFails.ASFail.ClearFailures | src/Convex/thesisProjectionIdeas/GradDescentFeasibility/Proj/ASFail.java:107-109 | drops the failure point and changes nothing else |
| ASFails.ASFail.MightContainProj | src/Convex/thesisProjectionIdeas/GradDescentFeasibility/Proj/ASFail.java:79-105 | first level: the below-plane-0 test, failed and checked untouched; closed-form projection: true; local element: false; otherwise the outcome of the neighbour scan (completed: true and checked emptied; failed at p: false with failed = p and checked emptied; missing neighbour: NullPointer with the points checked so far kept); mightContProj equals every returned value; an empty checked set stays empty on success |
| ASFails.ScanFrom | src/Convex/thesisProjectionIdeas/GradDescentFeasibility/Proj/ASFail.java:89-104 | the neighbour loop from neighbour i on: a null lookup happens only if some neighbour from i on is missing, and the checked set it leaves contains the one it started with; a failure at p happens only at a present neighbour whose failure point p lies above the plane it lacks |
| ASFails.ScanFailedAt | src/Convex/thesisProjectionIdeas/GradDescentFeasibility/Proj/ASFail.java:89-101 | the scan fails at p only at a present neighbour whose failure point p lies above its missing plane, and that neighbour is either a candidate or one whose point was already checked (seen at an earlier ruled-out neighbour); no earlier neighbour stopped the scan |
| ASFails.ScanCompletes | src/Convex/thesisProjectionIdeas/GradDescentFeasibility/Proj/ASFail.java:89-104 | the scan completes iff no neighbour is missing or triggers a failure |
| ASFails.ScanMissing | src/Convex/thesisProjectionIdeas/GradDescentFeasibility/Proj/ASFail.java:91-93 | a null lookup happens only at the first missing neighbour, after none triggered, with checked holding the earlier ruled-out neighbours' points |
| ASFails.AddedStep | src/Convex/thesisProjectionIdeas/GradDescentFeasibility/Proj/ASFail.java:98-99 | passing a neighbour adds its point to checked exactly when it is ruled out and has a point |
| PolytopeCones.PolytopeCone.constructor | src/Convex/PolytopeCone.java:21-23 | the cone has the given tip and no half-spaces |
| PolytopeCones.PolytopeCone.GetTip | src/Convex/PolytopeCone.java:25-27 | returns the stored tip |
| PolytopeCones.PolytopeCone.SetTip | src/Convex/PolytopeCone.java:25-31 | getTip returns what setTip stored; the half-spaces do not change |
| PolytopeCones.PolytopeCone.AddPlaneWithNormal | src/Convex/PolytopeCone.java:33-35 | appends exactly the half-space through the current tip with that normal |
| PolytopeCones.PolytopeCone.AddPlanesWithNormals | src/Convex/PolytopeCone.java:37-39 | appends one half-space through the tip per normal, in order, and keeps the earlier ones |
| PolytopeCones.ThroughTip | src/Convex/PolytopeCone.java:38 | the mapped list has one half-space through the tip per normal, in order |
| PolytopeCones.PolytopeCone.SamplePolytopeCone | src/Convex/PolytopeCone.java:41-47 | tip at the origin of R^3 and exactly the three half-spaces with normals -e1, -e2, -e3 |
| PolytopeCones.PolytopeCone.AlmostNearest | src/Convex/PolytopeCone.java:51-53 | fails on an empty cone; otherwise a half-space of largest distance, and no earlier one has that distance (Stream.max keeps the first on a tie) |
| PolytopeCones.FirstMax | src/Convex/PolytopeCone.java:52 | the fold of Stream.max over the first k half-spaces returns one of them, at least as distant as the first and as the last; on a tie with the accumulator it keeps the accumulator |
| PolytopeCones.FirstMaxIsFirstMaximum | src/Convex/PolytopeCone.java:52 | the left fold picks the first half-space of largest distance |
| PolytopeCones.PolytopeCone.IsLoop | src/Convex/PolytopeCone.java:61-63 | true exactly when the candidate is already on the projection path |
| PolytopeCones.PolytopeCone.Proj | src/Convex/PolytopeCone.java:65-86 | fails on an empty cone; otherwise the walk from the nearest half-space visits m distinct half-spaces (m at most their number) before its first repeat, and the result is the projection onto the intersection of the boundaries on the cycle through the repeated one, met in walk order up to its first return |
| PolytopeCones.PolytopeCone.WalkToRepeat | src/Convex/PolytopeCone.java:61-74 | the first loop adds a new half-space to projPath each pass, runs at most size() times, and stops at a candidate already in projPath |
| PolytopeCones.PolytopeCone.IntersectCycle | src/Convex/PolytopeCone.java:76-82 | the second loop returns to the repeated candidate after q steps, q its first return, and collects exactly the half-spaces met before it |
| PolytopeCones.RepeatIsPeriodic | src/Convex/PolytopeCone.java:71-79 | the repeated candidate lies on a cycle, so the second loop terminates |
| PolytopeCones.CycleDistinct | src/Convex/PolytopeCone.java:79-82 | before its first return the walk meets no half-space twice |
| PolytopeCones.CycleOfWalkDistinct | src/Convex/PolytopeCone.java:76-82 | the boundaries intersected are half-spaces of the cone, pairwise distinct, at most size() of them |

## Left out

- Floating-point geometry is not modelled. It enters as functions the model calls:
  - restricted minimisation `PCone.min` and `meetsNecCrti`;
  - `Polyhedron.hasElement`;
  - the half-space tests `above` and `below`, `localHasElement` and `hasProjFunc`;
  - `HalfSpace.d` and `HalfSpace.proj`;
  - the final projection onto an intersection of boundaries.

  Distances are real numbers, so NaN ordering is not modelled.
- `PCone.min(prevLevel)` reuses the level below for speed. The model takes the minimum as a function of the face alone, the value that reuse must reproduce.
- The parallel streams of `coDimPlusPlus` and `posMinOnLevel` are not modelled. `findAny` is an arbitrary choice among the faces still untested.
- The counter counts the tested faces whose restricted minimum met the necessary criterion (CoupRliec.java:102). A parallel run may evaluate more faces than needed and race on the unsynchronised increment. Neither is modelled.
- CoupRliecEngine.CoupRliec.TotallNumberOfAffineSpaces: does not model 32-bit overflow of `tot`, because integers are unbounded here.
- CoupRliecEngine.CoupRliec.SuffCrit: does not model 32-bit overflow of the counter.
- CoupRliecEngine.CoupRliec.FracAffineSpacesChecked: returns the exact quotient as a real, where CoupRliec.java:60 divides in `double` arithmetic and rounds. The 1.0 and 2.0 of the finding are exact in `double` as well.
- The level map is keyed by the set of a face's indices. The equality of `ASKeyPCo` is not part of this model. Keys as index sets are the reading under which `toMap` is meant to be collision-free.
- The constructor from a list of half-spaces (CoupRliec.java:33-36) is not modelled: `Polyhedron` is not part of this model. The engine takes the polyhedron as the number and dimension of its half-spaces plus a membership test.
- The four typed `equals` overloads of the `ASKey` subclasses are passed in as functions. Which of the four classes a key is first an instance of is a field of the key, fixed when it is built. Subclasses that override `equals(ASKey)` itself are not modelled. `toString` is left out.
- The `ASFail` constructors that build their node through `ASNode.factory` (ASFail.java:38-40, 56-58) are left out, along with `somePlane` and `toString`: `ASNode` is not part of this model.
- Bounds errors on `planeList` are not modelled: the half-space tests are total.
- Points in `checked` are compared as values, as `HashSet<Point>` does through `Point.equals`.
- The lower-level memos are read as snapshots of their two fields.
  - The scan writes none of their fields.
  - It writes this memo's own `failed` and `mightContProj` only when it returns.
  - So the snapshot is what Java reads, even if the map holds this memo itself.
- `Polytope`, the list that `PolytopeCone` extends, is not part of this model. Its half-spaces are a sequence that `add` and `addAll` append to.
- Half-spaces in `proj` are identified by their position in the list.
  - Java compares them with `HashSet.contains` (`equals`) and with `!=` (reference).
  - `almostNearest` always returns the first of several equal half-spaces, so the walk never meets a later copy, and the three comparisons agree.
- The two loops of `proj` are the methods `WalkToRepeat` and `IntersectCycle`, which `Proj` calls in turn. The boundaries intersected are returned in walk order and handed to the projection function.

## Findings

| source | as written | input that shows it | evidently intended | confidence | as-written member | corrected member |
|---|---|---|---|---|---|---|
| src/Hilbert/Optimization/CoupRliec.java:58-61 | `fracAffineSpacesChecked` runs `argMin` again and divides the counter by the total, but the counter (line 137) is never reset, so every run adds to it | one half-space in dimension 1, every restricted minimum meeting the necessary criterion, no point in the polyhedron: both faces are counted on each run, and the total is 2; the first call returns 1.0, the second 2.0 | the fraction of the faces evaluated by one run, in [0, 1] | not executed | CoupRliecEngine.FracExceedsOneOnSecondCall | CoupRliecEngine.CoupRliec.FracAffineSpacesCheckedPerRun |
