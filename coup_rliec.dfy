/**
  The CoupRliec face-search engine: it minimises a strictly convex function over a
  polyhedron by trying the faces of codimension 0, 1, 2, ... and stopping at the first
  face whose restricted minimum meets the necessary criterion and lies in the polyhedron.
  The geometry (restricted minimisation, the necessary criterion, membership in the
  polyhedron) is given as functions the engine only calls.
 */
module CoupRliecEngine {
  import opened Wrappers
  import opened Combinatorics
  import opened Faces

  datatype Error =
    | EmptyPolyhedron   // dim() on a polyhedron without half-spaces
    | DuplicateKey      // Collectors.toMap meeting one key twice

  /** The result of minimising over one face: the minimiser and whether it meets the necessary criterion. */
  datatype ArgMinContainer<V> = ArgMinContainer(argMin: V, meetsNecCrit: bool)

  /** The objective, seen through its minimum restricted to each face (PCone.min). */
  datatype StrictlyConvexFunction<V> = StrictlyConvexFunction(minOn: Face -> ArgMinContainer<V>)

  /** The half-spaces, by the dimension of their normals, and the membership test of their intersection. */
  datatype Polyhedron<!V> = Polyhedron(normalDims: seq<nat>, hasElement: V -> bool)
  {
    function NumHalfSpaces(): nat { |normalDims| }
  }

  /** The key of a face in a level map. */
  type Key = set<int>

  /** The sufficient criterion for one restricted minimum. */
  predicate SuffCritHolds<V>(poly: Polyhedron<V>, m: ArgMinContainer<V>)
  {
    m.meetsNecCrit && poly.hasElement(m.argMin)
  }

  predicate Passes<V>(f: StrictlyConvexFunction<V>, poly: Polyhedron<V>, face: Face)
  {
    SuffCritHolds(poly, f.minOn(face))
  }

  /** No face of codimension k passes the sufficient criterion. */
  ghost predicate LevelFails<V>(f: StrictlyConvexFunction<V>, poly: Polyhedron<V>, k: nat)
  {
    forall face | face in Level(poly.NumHalfSpaces(), k) :: !Passes(f, poly, face)
  }

  /** Every level of codimension 0..k fails. */
  ghost predicate FailsThrough<V>(f: StrictlyConvexFunction<V>, poly: Polyhedron<V>, k: nat)
  {
    LevelFails(f, poly, k) && (k > 0 ==> FailsThrough(f, poly, k - 1))
  }

  lemma {:induction false} FailsThroughAll<V>(f: StrictlyConvexFunction<V>, poly: Polyhedron<V>, k: nat)
    ensures FailsThrough(f, poly, k) <==> forall j | 0 <= j <= k :: LevelFails(f, poly, j)
  {
    if k > 0 {
      FailsThroughAll(f, poly, k - 1);
    }
  }

  /** Level k is the first level holding a face that passes. */
  ghost predicate FirstPassingLevel<V>(f: StrictlyConvexFunction<V>, poly: Polyhedron<V>, k: nat)
  {
    (k > 0 ==> FailsThrough(f, poly, k - 1)) && !LevelFails(f, poly, k)
  }

  /** p is the minimiser of a passing face of codimension k. */
  ghost predicate FoundOn<V>(f: StrictlyConvexFunction<V>, poly: Polyhedron<V>, k: nat, p: V)
  {
    exists face | face in Level(poly.NumHalfSpaces(), k) :: Passes(f, poly, face) && f.minOn(face).argMin == p
  }

  /**
    p comes from the first passing level k, and the counter went from before to after
    by counting every lower level in full and part of level k.
   */
  ghost predicate SucceedsOn<V>(f: StrictlyConvexFunction<V>, poly: Polyhedron<V>, k: nat, p: V, before: int, after: int)
  {
    && FirstPassingLevel(f, poly, k)
    && FoundOn(f, poly, k, p)
    && before + NecBelow(f, poly.NumHalfSpaces(), k) < after
    && after <= before + NecBelow(f, poly.NumHalfSpaces(), k + 1)
  }

  /** The number of faces in s whose restricted minimum meets the necessary criterion. */
  ghost function NecCount<V>(f: StrictlyConvexFunction<V>, s: set<Face>): nat
  {
    |set face | face in s && f.minOn(face).meetsNecCrit|
  }

  /** NecCount summed over the levels of codimension below k. */
  ghost function NecBelow<V>(f: StrictlyConvexFunction<V>, n: nat, k: nat): nat
  {
    if k == 0 then 0 else NecBelow(f, n, k - 1) + NecCount(f, Level(n, k - 1))
  }

  /** Faces with pairwise distinct keys, collected into a map from key to face. */
  function KeyedMap(s: set<Face>): (m: map<Key, Face>)
    requires DistinctKeys(s)
    ensures m.Values == s && |m| == |s|
    ensures forall c | c in s :: FaceKey(c) in m && m[FaceKey(c)] == c
  {
    var m := map c | c in s :: FaceKey(c) := c;
    assert m.Values == s by {
      forall c | c in s ensures c in m.Values {
        assert m[FaceKey(c)] == c;
      }
    }
    assert |m| == |s| by {
      assert m.Keys == set c | c in s :: FaceKey(c);
      KeysCard(s);
    }
    m
  }

  /**
    The next level: every face of prev extended by each index above its last one,
    collected into a map by key; a key met twice is an error, as in Collectors.toMap.
   */
  function CoDimPlusPlus(prev: set<Face>, n: int): (r: Result<map<Key, Face>, Error>)
    ensures r.Success? ==> r.value.Values == Children(prev, n)
    ensures r.Success? ==> forall c | c in Children(prev, n) :: FaceKey(c) in r.value && r.value[FaceKey(c)] == c
    ensures r.Success? ==> |r.value| == |Children(prev, n)|
    ensures r.Failure? <==> !DistinctKeys(Children(prev, n))
  {
    var children := Children(prev, n);
    if DistinctKeys(children) then Success(KeyedMap(children)) else Failure(DuplicateKey)
  }

  /** Two (face, index) pairs of one level never yield the same key, so toMap never sees a duplicate. */
  lemma ChildKeysDistinct(n: nat, k: nat, f1: Face, j1: int, f2: Face, j2: int)
    requires f1 in Level(n, k) && LastIndex(f1) < j1 < n
    requires f2 in Level(n, k) && LastIndex(f2) < j2 < n
    requires FaceKey(f1 + [j1]) == FaceKey(f2 + [j2])
    ensures f1 == f2 && j1 == j2
  {
    LevelSound(n, k, f1);
    LevelSound(n, k, f2);
    ChildIsFace(f1, j1, n);
    ChildIsFace(f2, j2, n);
    SameKeySameFace(f1 + [j1], f2 + [j2]);
    assert f1 == (f1 + [j1])[..k] && f2 == (f2 + [j2])[..k];
    assert j1 == (f1 + [j1])[k] && j2 == (f2 + [j2])[k];
  }

  /** From level k, coDimPlusPlus succeeds and builds level k+1, with C(n, k+1) entries. */
  lemma CoDimPlusPlusLevel(n: nat, k: nat)
    ensures CoDimPlusPlus(Level(n, k), n).Success?
    ensures CoDimPlusPlus(Level(n, k), n).value.Values == Level(n, k + 1)
  {
    LevelNext(n, k);
    LevelKeysDistinct(n, k + 1);
  }

  /** The map built from level k has one entry per face of level k+1: C(n, k+1) of them. */
  lemma CoDimPlusPlusLevelSize(n: nat, k: nat)
    ensures CoDimPlusPlus(Level(n, k), n).Success?
    ensures |CoDimPlusPlus(Level(n, k), n).value| == Choose(n, k + 1)
  {
    CoDimPlusPlusLevel(n, k);
    LevelNext(n, k);
    LevelCard(n, k + 1);
  }

  /** Each level contributes at most its size to the counter, so NecBelow is bounded by the face count. */
  lemma {:induction false} NecBelowBound<V>(f: StrictlyConvexFunction<V>, n: nat, m: nat)
    ensures NecBelow(f, n, m + 1) <= SumChoose(n, m)
  {
    var nec := set face | face in Level(n, m) && f.minOn(face).meetsNecCrit;
    SubsetCard(nec, Level(n, m));
    LevelCard(n, m);
    if m > 0 {
      NecBelowBound(f, n, m - 1);
    }
  }

  lemma NecBelowStep<V>(f: StrictlyConvexFunction<V>, n: nat, k: nat)
    ensures NecBelow(f, n, k + 1) == NecBelow(f, n, k) + NecCount(f, Level(n, k))
  {
  }

  lemma {:induction false} NecBelowMonotone<V>(f: StrictlyConvexFunction<V>, n: nat, a: nat, b: nat)
    requires a <= b
    ensures NecBelow(f, n, a) <= NecBelow(f, n, b)
    decreases b
  {
    if a < b {
      NecBelowMonotone(f, n, a, b - 1);
    }
  }

  /** Level 0 holds the whole space alone, so it contributes one count exactly when its minimum meets the necessary criterion. */
  lemma NecBelowOne<V>(f: StrictlyConvexFunction<V>, n: nat)
    ensures NecBelow(f, n, 1) == if f.minOn([]).meetsNecCrit then 1 else 0
  {
    var nec := set face | face in Level(n, 0) && f.minOn(face).meetsNecCrit;
    assert nec == if f.minOn([]).meetsNecCrit then {[]} else {};
  }

  /** The whole space passing ends the search on level 0 after one count. */
  lemma FoundOnWholeSpace<V>(f: StrictlyConvexFunction<V>, poly: Polyhedron<V>, depth: nat, before: int, after: int)
    requires Passes(f, poly, [])
    requires after == before + 1
    ensures SucceedsOn(f, poly, 0, f.minOn([]).argMin, before, after)
    ensures !FailsThrough(f, poly, depth)
    ensures after == before + NecBelow(f, poly.NumHalfSpaces(), 1)
    ensures after <= before + NecBelow(f, poly.NumHalfSpaces(), depth + 1)
  {
    var n := poly.NumHalfSpaces();
    NecBelowOne(f, n);
    assert [] in Level(n, 0);
    assert !LevelFails(f, poly, 0);
    NecBelowStep(f, n, 1);
    assert SucceedsOn(f, poly, 0, f.minOn([]).argMin, before, after);
    FailsThroughAll(f, poly, depth);
    CountWithinDepth(f, n, 0, depth, before, after);
  }

  /**
    A passing face found on level i+1 after levels 0..i failed: the search succeeds there,
    so not every level up to depth fails, and the counter stays within the faces it may test.
   */
  lemma FoundOnNextLevel<V>(f: StrictlyConvexFunction<V>, poly: Polyhedron<V>, i: nat, depth: nat, p: V, before: int, after: int)
    requires i < depth
    requires FailsThrough(f, poly, i)
    requires FoundOn(f, poly, i + 1, p)
    requires before + NecBelow(f, poly.NumHalfSpaces(), i + 1) < after
    requires after <= before + NecBelow(f, poly.NumHalfSpaces(), i + 1) + NecCount(f, Level(poly.NumHalfSpaces(), i + 1))
    ensures exists k | 1 <= k <= depth :: SucceedsOn(f, poly, k, p, before, after)
    ensures !FailsThrough(f, poly, depth)
    ensures before <= after <= before + NecBelow(f, poly.NumHalfSpaces(), depth + 1)
  {
    var k := i + 1;
    var face :| face in Level(poly.NumHalfSpaces(), k) && Passes(f, poly, face) && f.minOn(face).argMin == p;
    assert !LevelFails(f, poly, k);
    NecBelowStep(f, poly.NumHalfSpaces(), k);
    assert SucceedsOn(f, poly, k, p, before, after);
    FailsThroughAll(f, poly, depth);
    CountWithinDepth(f, poly.NumHalfSpaces(), k, depth, before, after);
  }

  /** A counter within the levels up to k is within the levels up to any deeper depth. */
  lemma CountWithinDepth<V>(f: StrictlyConvexFunction<V>, n: nat, k: nat, depth: nat, before: int, after: int)
    requires k <= depth && after <= before + NecBelow(f, n, k + 1)
    ensures after <= before + NecBelow(f, n, depth + 1)
  {
    NecBelowMonotone(f, n, k + 1, depth + 1);
  }

  class CoupRliec<V> {
    const f: StrictlyConvexFunction<V>
    const poly: Polyhedron<V>
    /** Faces whose restricted minimum met the necessary criterion, over all runs. */
    var numAffineSpacesChecked: int

    constructor (f: StrictlyConvexFunction<V>, poly: Polyhedron<V>)
      ensures this.f == f && this.poly == poly && numAffineSpacesChecked == 0
    {
      this.f := f;
      this.poly := poly;
      numAffineSpacesChecked := 0;
    }

    /** The dimension of the space: that of the first half-space's normal. */
    function Dim(): (r: Result<nat, Error>)
      ensures r.Failure? <==> poly.NumHalfSpaces() == 0
      ensures r.Success? ==> r.value == poly.normalDims[0]
    {
      if poly.NumHalfSpaces() == 0 then Failure(EmptyPolyhedron) else Success(poly.normalDims[0])
    }

    /** The number of levels above the whole space the search may build: min(N, dim). */
    function NumSequentialIterations(): (r: Result<nat, Error>)
      ensures r.Failure? <==> poly.NumHalfSpaces() == 0
      ensures r.Success? ==> r.value <= poly.NumHalfSpaces() && r.value <= poly.normalDims[0]
      ensures r.Success? ==> r.value == poly.NumHalfSpaces() || r.value == poly.normalDims[0]
    {
      match Dim()
      case Failure(e) => Failure(e)
      case Success(d) => Success(if poly.NumHalfSpaces() <= d then poly.NumHalfSpaces() else d)
    }

    /** The deepest codimension the search reaches; 0 when there are no half-spaces. */
    ghost function SearchDepth(): nat
    {
      match NumSequentialIterations()
      case Success(n) => n
      case Failure(_) => 0
    }

    /** The number of faces of codimension 0..min(N, dim). */
    method TotallNumberOfAffineSpaces() returns (r: Result<nat, Error>)
      ensures r.Failure? <==> poly.NumHalfSpaces() == 0
      ensures r.Success? ==> r.value == SumChoose(poly.NumHalfSpaces(), SearchDepth())
      ensures r.Success? ==> r.value == |FacesUpTo(poly.NumHalfSpaces(), SearchDepth())|
    {
      var iters := NumSequentialIterations();
      if iters.Failure? {
        return Failure(iters.error);
      }
      var tot := 0;
      var i := 0;
      while i <= iters.value
        invariant 0 <= i <= iters.value + 1
        invariant tot == if i == 0 then 0 else SumChoose(poly.NumHalfSpaces(), i - 1)
      {
        tot := tot + Choose(poly.NumHalfSpaces(), i);
        i := i + 1;
      }
      FacesUpToCard(poly.NumHalfSpaces(), iters.value);
      return Success(tot);
    }

    /** The sufficient criterion; counts the candidate when it meets the necessary one. */
    method SuffCrit(posMin: ArgMinContainer<V>) returns (r: bool)
      modifies this`numAffineSpacesChecked
      ensures r == SuffCritHolds(poly, posMin)
      ensures numAffineSpacesChecked == old(numAffineSpacesChecked) + (if posMin.meetsNecCrit then 1 else 0)
    {
      if posMin.meetsNecCrit {
        numAffineSpacesChecked := numAffineSpacesChecked + 1;
      }
      r := posMin.meetsNecCrit && poly.hasElement(posMin.argMin);
    }

    /** Some passing restricted minimum of the level, found by testing the faces in an arbitrary order. */
    method PosMinOnLevel(level: set<Face>) returns (r: Option<ArgMinContainer<V>>)
      modifies this`numAffineSpacesChecked
      ensures r.None? <==> forall face | face in level :: !Passes(f, poly, face)
      ensures r.Some? ==> exists face | face in level :: Passes(f, poly, face) && r.value == f.minOn(face)
      ensures r.None? ==> numAffineSpacesChecked == old(numAffineSpacesChecked) + NecCount(f, level)
      ensures r.Some? ==> old(numAffineSpacesChecked) < numAffineSpacesChecked <= old(numAffineSpacesChecked) + NecCount(f, level)
    {
      var remaining := level;
      ghost var tested: set<Face> := {};
      while remaining != {}
        invariant remaining <= level && tested == level - remaining
        invariant forall face | face in tested :: !Passes(f, poly, face)
        invariant numAffineSpacesChecked == old(numAffineSpacesChecked) + NecCount(f, tested)
        decreases remaining
      {
        var face :| face in remaining;
        var posMin := f.minOn(face);
        var ok := SuffCrit(posMin);
        NecCountAdd(tested, face);
        if ok {
          assert tested + {face} <= level;
          NecCountSubset(tested + {face}, level);
          return Some(posMin);
        }
        remaining := remaining - {face};
        tested := tested + {face};
      }
      assert tested == level;
      return None;
    }

    lemma NecCountAdd(s: set<Face>, face: Face)
      requires face !in s
      ensures NecCount(f, s + {face}) == NecCount(f, s) + (if f.minOn(face).meetsNecCrit then 1 else 0)
    {
      var before := set g | g in s && f.minOn(g).meetsNecCrit;
      var after := set g | g in s + {face} && f.minOn(g).meetsNecCrit;
      assert after == before + (if f.minOn(face).meetsNecCrit then {face} else {});
    }

    lemma NecCountSubset(s: set<Face>, t: set<Face>)
      requires s <= t
      ensures NecCount(f, s) <= NecCount(f, t)
    {
      var a := set g | g in s && f.minOn(g).meetsNecCrit;
      var b := set g | g in t && f.minOn(g).meetsNecCrit;
      SubsetCard(a, b);
    }

    /** One pass of the ArgMin loop: build the next level from this one and search it. */
    method SearchNextLevel(level: map<Key, Face>, i: nat) returns (next: map<Key, Face>, posMin: Option<ArgMinContainer<V>>)
      requires level.Values == Level(poly.NumHalfSpaces(), i)
      modifies this`numAffineSpacesChecked
      ensures next.Values == Level(poly.NumHalfSpaces(), i + 1)
      ensures posMin.None? <==> LevelFails(f, poly, i + 1)
      ensures posMin.Some? ==> FoundOn(f, poly, i + 1, posMin.value.argMin)
      ensures posMin.None? ==>
        numAffineSpacesChecked == old(numAffineSpacesChecked) + NecCount(f, Level(poly.NumHalfSpaces(), i + 1))
      ensures posMin.Some? ==>
        && old(numAffineSpacesChecked) < numAffineSpacesChecked
        && numAffineSpacesChecked <= old(numAffineSpacesChecked) + NecCount(f, Level(poly.NumHalfSpaces(), i + 1))
    {
      CoDimPlusPlusLevel(poly.NumHalfSpaces(), i);
      next := CoDimPlusPlus(level.Values, poly.NumHalfSpaces()).value;
      posMin := PosMinOnLevel(next.Values);
    }

    /**
      The minimiser over the polyhedron: the restricted minimum of a face on the first
      level holding a face that passes, or None when no level up to min(N, dim) has one.
     */
    method ArgMin() returns (r: Result<Option<V>, Error>)
      modifies this`numAffineSpacesChecked
      ensures Passes(f, poly, []) ==>
        r == Success(Some(f.minOn([]).argMin)) && numAffineSpacesChecked == old(numAffineSpacesChecked) + 1
      ensures r.Failure? <==> poly.NumHalfSpaces() == 0 && !Passes(f, poly, [])
      ensures r.Failure? ==> numAffineSpacesChecked == old(numAffineSpacesChecked) + NecBelow(f, poly.NumHalfSpaces(), 1)
      ensures r.Success? ==> (r.value.None? <==> FailsThrough(f, poly, SearchDepth()))
      ensures r.Success? && r.value.None? ==>
        numAffineSpacesChecked == old(numAffineSpacesChecked) + NecBelow(f, poly.NumHalfSpaces(), SearchDepth() + 1)
      ensures r.Success? && r.value.Some? ==>
        exists k | 0 <= k <= SearchDepth() ::
          SucceedsOn(f, poly, k, r.value.value, old(numAffineSpacesChecked), numAffineSpacesChecked)
      ensures FailsThrough(f, poly, SearchDepth()) ==>
        numAffineSpacesChecked == old(numAffineSpacesChecked) + NecBelow(f, poly.NumHalfSpaces(), SearchDepth() + 1)
      ensures old(numAffineSpacesChecked) <= numAffineSpacesChecked
      ensures numAffineSpacesChecked <= old(numAffineSpacesChecked) + NecBelow(f, poly.NumHalfSpaces(), SearchDepth() + 1)
    {
      var n := poly.NumHalfSpaces();
      var level: map<Key, Face> := map[FaceKey([]) := []];
      assert level.Values == {[]} by {
        assert level.Keys == {FaceKey([])} && level[FaceKey([])] == [];
      }
      var min := f.minOn([]);
      NecBelowOne(f, n);
      var found := SuffCrit(min);
      if found {
        FoundOnWholeSpace(f, poly, SearchDepth(), old(numAffineSpacesChecked), numAffineSpacesChecked);
        return Success(Some(min.argMin));
      }
      var iters := NumSequentialIterations();
      if iters.Failure? {
        assert SearchDepth() == 0;
        return Failure(iters.error);
      }
      assert SearchDepth() == iters.value;
      var p := SearchLevels(level, iters.value, old(numAffineSpacesChecked));
      return Success(p);
    }

    /**
      The loop of ArgMin: level 0 has failed; build and search levels 1..depth in turn,
      stopping at the first that holds a passing face.
     */
    method SearchLevels(level0: map<Key, Face>, depth: nat, ghost before: int) returns (p: Option<V>)
      requires level0.Values == Level(poly.NumHalfSpaces(), 0)
      requires LevelFails(f, poly, 0)
      requires numAffineSpacesChecked == before + NecBelow(f, poly.NumHalfSpaces(), 1)
      modifies this`numAffineSpacesChecked
      ensures p.None? <==> FailsThrough(f, poly, depth)
      ensures p.None? ==> numAffineSpacesChecked == before + NecBelow(f, poly.NumHalfSpaces(), depth + 1)
      ensures p.Some? ==> exists k | 1 <= k <= depth :: SucceedsOn(f, poly, k, p.value, before, numAffineSpacesChecked)
      ensures before <= numAffineSpacesChecked <= before + NecBelow(f, poly.NumHalfSpaces(), depth + 1)
    {
      var n := poly.NumHalfSpaces();
      var level := level0;
      var i := 0;
      while i < depth
        invariant 0 <= i <= depth
        invariant level.Values == Level(n, i)
        invariant FailsThrough(f, poly, i)
        invariant numAffineSpacesChecked == before + NecBelow(f, n, i + 1)
      {
        var next, posMin := SearchNextLevel(level, i);
        if posMin.Some? {
          FoundOnNextLevel(f, poly, i, depth, posMin.value.argMin, before, numAffineSpacesChecked);
          return Some(posMin.value.argMin);
        }
        assert LevelFails(f, poly, i + 1);
        level := next;
        i := i + 1;
      }
      return None;
    }

    /** The counter divided by the number of faces up to min(N, dim), after one more run of ArgMin. */
    method FracAffineSpacesChecked() returns (r: Result<real, Error>)
      modifies this`numAffineSpacesChecked
      ensures r.Failure? <==> poly.NumHalfSpaces() == 0
      ensures old(numAffineSpacesChecked) <= numAffineSpacesChecked
      ensures numAffineSpacesChecked <= old(numAffineSpacesChecked) + NecBelow(f, poly.NumHalfSpaces(), SearchDepth() + 1)
      ensures FailsThrough(f, poly, SearchDepth()) ==>
        numAffineSpacesChecked == old(numAffineSpacesChecked) + NecBelow(f, poly.NumHalfSpaces(), SearchDepth() + 1)
      ensures r.Success? ==>
        r.value == numAffineSpacesChecked as real / SumChoose(poly.NumHalfSpaces(), SearchDepth()) as real
    {
      var _ := ArgMin();
      var tot := TotallNumberOfAffineSpaces();
      if tot.Failure? {
        return Failure(tot.error);
      }
      return Success(numAffineSpacesChecked as real / tot.value as real);
    }

    /** The fraction for one run: the counter is reset before ArgMin, so the result lies in [0, 1]. */
    method FracAffineSpacesCheckedPerRun() returns (r: Result<real, Error>)
      modifies this`numAffineSpacesChecked
      ensures r.Failure? <==> poly.NumHalfSpaces() == 0
      ensures r.Success? ==> 0.0 <= r.value <= 1.0
      ensures r.Success? ==>
        r.value == numAffineSpacesChecked as real / SumChoose(poly.NumHalfSpaces(), SearchDepth()) as real
    {
      numAffineSpacesChecked := 0;
      var _ := ArgMin();
      var tot := TotallNumberOfAffineSpaces();
      if tot.Failure? {
        return Failure(tot.error);
      }
      NecBelowBound(f, poly.NumHalfSpaces(), SearchDepth());
      FractionInUnit(numAffineSpacesChecked, tot.value);
      return Success(numAffineSpacesChecked as real / tot.value as real);
    }
  }

  /** An objective whose restricted minimum meets the necessary criterion on every face. */
  function AlwaysNecessary(): StrictlyConvexFunction<int>
  {
    StrictlyConvexFunction((face: Face) => ArgMinContainer(|face|, true))
  }

  /** One half-space in dimension one, with a membership test that rejects every point. */
  function NeverInside(): Polyhedron<int>
  {
    Polyhedron([1], (x: int) => false)
  }

  /** With one half-space, both faces (the whole space and the hyperplane 0) are counted. */
  lemma ExampleCount()
    ensures NecBelow(AlwaysNecessary(), 1, 2) == 2
    ensures SumChoose(1, 1) == 2
  {
    var f := AlwaysNecessary();
    NecBelowOne(f, 1);
    NecBelowStep(f, 1, 1);
    assert Level(1, 1) == {[0]} by {
      LevelNext(1, 0);
      assert [] + [0] == [0];
      forall g | g in Level(1, 1) ensures g == [0] {
        LevelSound(1, 1, g);
      }
    }
    var nec := set face | face in Level(1, 1) && f.minOn(face).meetsNecCrit;
    assert nec == {[0]};
  }

  /**
    The counter is never reset, so a second call of FracAffineSpacesChecked on the same
    engine reports twice the faces there are.
   */
  method FracExceedsOneOnSecondCall() returns (first: Result<real, Error>, second: Result<real, Error>)
    ensures first == Success(1.0)
    ensures second == Success(2.0)
  {
    var engine := new CoupRliec(AlwaysNecessary(), NeverInside());
    ExampleCount();
    assert engine.SearchDepth() == 1;
    assert FailsThrough(engine.f, engine.poly, 1);
    first := engine.FracAffineSpacesChecked();
    second := engine.FracAffineSpacesChecked();
  }

  lemma FractionInUnit(c: int, t: int)
    requires 0 <= c <= t && t >= 1
    ensures 0.0 <= c as real / t as real <= 1.0
  {
    var q := c as real / t as real;
    assert q * t as real == c as real;
  }
}
