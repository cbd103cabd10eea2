/**
  A polyhedral cone: half-spaces that all pass through one tip. It projects a point
  with a walk over its half-spaces: from each half-space it moves to the half-space
  nearest (in the cone's own distance) to the projection onto the current one. When
  the walk repeats, the projection is taken onto the intersection of the boundaries
  on the cycle it has entered. Distances and projections are given as functions;
  half-spaces are identified by their position in the cone's list.
 */
module PolytopeCones {
  import opened Wrappers

  type Point = seq<real>

  /** A half-space through onPlane with outward normal normal. */
  datatype HalfSpace = HalfSpace(onPlane: Point, normal: Point)

  datatype Error = NoSuchElement   // Optional.get() on the maximum of an empty stream

  /** The geometry the walk uses. */
  datatype Geometry = Geometry(
    d: (HalfSpace, Point) -> real,               // HalfSpace.d
    proj: (HalfSpace, Point) -> Point,           // HalfSpace.proj
    projOnto: (seq<HalfSpace>, Point) -> Point)  // proj onto the intersection of the boundaries, in order

  /**
    The index of the half-space among hs[..k] with the largest distance to y; on a tie
    the earlier one, as Stream.max keeps its accumulator when the comparison is equal.
   */
  function FirstMax(hs: seq<HalfSpace>, d: (HalfSpace, Point) -> real, y: Point, k: nat): (r: nat)
    requires 1 <= k <= |hs|
    ensures r < k
    ensures d(hs[r], y) >= d(hs[0], y) && d(hs[r], y) >= d(hs[k - 1], y)
  {
    if k == 1 then 0
    else
      var a := FirstMax(hs, d, y, k - 1);
      if d(hs[a], y) >= d(hs[k - 1], y) then a else k - 1
  }

  /** FirstMax picks a half-space of largest distance, and no earlier one has that distance. */
  lemma {:induction false} FirstMaxIsFirstMaximum(hs: seq<HalfSpace>, d: (HalfSpace, Point) -> real, y: Point, k: nat)
    requires 1 <= k <= |hs|
    ensures forall j | 0 <= j < k :: d(hs[j], y) <= d(hs[FirstMax(hs, d, y, k)], y)
    ensures forall j | 0 <= j < FirstMax(hs, d, y, k) :: d(hs[j], y) < d(hs[FirstMax(hs, d, y, k)], y)
  {
    if k > 1 {
      FirstMaxIsFirstMaximum(hs, d, y, k - 1);
    }
  }

  /** The half-spaces of a cone, its geometry and the point being projected. */
  datatype Walk = Walk(hs: seq<HalfSpace>, g: Geometry, y: Point)

  /** One step of the walk: the half-space nearest to the projection of y onto half-space i. */
  function Next(w: Walk, i: nat): (r: nat)
    ensures |w.hs| > 0 ==> r < |w.hs|
  {
    if i < |w.hs| then FirstMax(w.hs, w.g.d, w.g.proj(w.hs[i], w.y), |w.hs|) else 0
  }

  /** t steps of the walk from x. */
  function Iter(w: Walk, x: nat, t: nat): nat
  {
    if t == 0 then x else Next(w, Iter(w, x, t - 1))
  }

  lemma {:induction false} IterAdd(w: Walk, x: nat, a: nat, b: nat)
    ensures Iter(w, Iter(w, x, a), b) == Iter(w, x, a + b)
    decreases b
  {
    if b > 0 {
      IterAdd(w, x, a, b - 1);
      assert Iter(w, x, a + b) == Next(w, Iter(w, x, a + b - 1));
    }
  }

  /** The walk from x0 visits m distinct half-spaces and its m-th step returns to one of them. */
  ghost predicate FirstRepeat(w: Walk, x0: nat, m: nat)
  {
    && (forall a, b | 0 <= a < b < m :: Iter(w, x0, a) != Iter(w, x0, b))
    && (exists j | 0 <= j < m :: Iter(w, x0, j) == Iter(w, x0, m))
  }

  /** The walk from c first comes back to c after q steps. */
  ghost predicate FirstReturn(w: Walk, c: nat, q: nat)
  {
    q >= 1 && Iter(w, c, q) == c && forall t | 0 < t < q :: Iter(w, c, t) != c
  }

  /** The first q half-spaces of the walk from c. */
  function CycleFrom(w: Walk, c: nat, q: nat): seq<nat>
  {
    seq(q, k requires 0 <= k => Iter(w, c, k))
  }

  /** Every half-space on the cycle the walk enters is one of the cone's. */
  ghost predicate CycleInRange(w: Walk, m: nat, q: nat)
  {
    |w.hs| > 0 && forall k | 0 <= k < q :: CycleOfWalk(w, m, q)[k] < |w.hs|
  }

  function Boundaries(hs: seq<HalfSpace>, idx: seq<nat>): seq<HalfSpace>
    requires forall k | 0 <= k < |idx| :: idx[k] < |hs|
  {
    seq(|idx|, k requires 0 <= k < |idx| => hs[idx[k]])
  }

  /** The walk meets the half-space of step j again at step m, so from there it comes back after m - j steps. */
  lemma RepeatIsPeriodic(w: Walk, x0: nat, m: nat, j: nat)
    requires j < m && Iter(w, x0, j) == Iter(w, x0, m)
    ensures Iter(w, Iter(w, x0, m), m - j) == Iter(w, x0, m)
  {
    IterAdd(w, x0, j, m - j);
  }

  /** Before its first return the walk from c meets no half-space twice. */
  lemma CycleDistinct(w: Walk, c: nat, q: nat)
    requires FirstReturn(w, c, q)
    ensures forall a, b | 0 <= a < b < q :: Iter(w, c, a) != Iter(w, c, b)
  {
    forall a, b | 0 <= a < b < q
      ensures Iter(w, c, a) != Iter(w, c, b)
    {
      IterAdd(w, c, a, q - b);
      IterAdd(w, c, b, q - b);
    }
  }

  /** The half-space nearest to y, where the walk starts. */
  function Start(w: Walk): nat
    requires |w.hs| > 0
  {
    FirstMax(w.hs, w.g.d, w.y, |w.hs|)
  }

  /**
    The walk of proj: from the start it visits m distinct half-spaces, m at most their
    number, and its m-th step enters a cycle whose first return takes q steps.
   */
  ghost predicate ProjWalk(w: Walk, m: nat, q: nat)
  {
    && |w.hs| > 0
    && 1 <= m <= |w.hs|
    && 1 <= q <= m
    && FirstRepeat(w, Start(w), m)
    && FirstReturn(w, Iter(w, Start(w), m), q)
  }

  /** The half-spaces on the cycle the walk enters, from the repeated one on. */
  function CycleOfWalk(w: Walk, m: nat, q: nat): seq<nat>
    requires |w.hs| > 0
  {
    CycleFrom(w, Iter(w, Start(w), m), q)
  }

  /** Every half-space of the walk is one of the cone's. */
  lemma {:induction false} IterInRange(w: Walk, x: nat, t: nat)
    requires x < |w.hs|
    ensures Iter(w, x, t) < |w.hs|
  {
    if t > 0 {
      IterInRange(w, x, t - 1);
    }
  }

  /** The boundaries proj intersects are cone half-spaces, each taken once, at most one per half-space. */
  lemma CycleOfWalkDistinct(w: Walk, m: nat, q: nat)
    requires ProjWalk(w, m, q)
    ensures |CycleOfWalk(w, m, q)| == q <= |w.hs|
    ensures forall k | 0 <= k < q :: CycleOfWalk(w, m, q)[k] < |w.hs|
    ensures forall a, b | 0 <= a < b < q :: CycleOfWalk(w, m, q)[a] != CycleOfWalk(w, m, q)[b]
  {
    var c := Iter(w, Start(w), m);
    CycleDistinct(w, c, q);
    forall k | 0 <= k < q ensures CycleOfWalk(w, m, q)[k] < |w.hs| {
      IterInRange(w, c, k);
    }
  }

  class PolytopeCone {
    var tip: Point
    /** The half-spaces, in the order they were added. */
    var halfSpaces: seq<HalfSpace>

    constructor (tip: Point)
      ensures this.tip == tip && halfSpaces == []
    {
      this.tip := tip;
      halfSpaces := [];
    }

    function GetTip(): (t: Point)
      reads this
      ensures t == tip
    {
      tip
    }

    method SetTip(tip: Point)
      modifies this`tip
      ensures GetTip() == tip && halfSpaces == old(halfSpaces)
    {
      this.tip := tip;
    }

    /** Adds the half-space through the tip with the given normal. */
    method AddPlaneWithNormal(normal: Point)
      modifies this`halfSpaces
      ensures halfSpaces == old(halfSpaces) + [HalfSpace(tip, normal)]
    {
      halfSpaces := halfSpaces + [HalfSpace(tip, normal)];
    }

    /** Adds one half-space through the tip per normal, in order. */
    method AddPlanesWithNormals(normals: seq<Point>)
      modifies this`halfSpaces
      ensures |halfSpaces| == |old(halfSpaces)| + |normals|
      ensures halfSpaces[..|old(halfSpaces)|] == old(halfSpaces)
      ensures forall i | 0 <= i < |normals| :: halfSpaces[|old(halfSpaces)| + i] == HalfSpace(tip, normals[i])
    {
      halfSpaces := halfSpaces + ThroughTip(tip, normals);
    }

    /** The cone at the origin of R^3 bounded by the three coordinate planes, with normals -e1, -e2 and -e3. */
    static method SamplePolytopeCone() returns (sample: PolytopeCone)
      ensures fresh(sample)
      ensures sample.GetTip() == [0.0, 0.0, 0.0]
      ensures sample.halfSpaces == [
        HalfSpace([0.0, 0.0, 0.0], [-1.0, 0.0, 0.0]),
        HalfSpace([0.0, 0.0, 0.0], [0.0, -1.0, 0.0]),
        HalfSpace([0.0, 0.0, 0.0], [0.0, 0.0, -1.0])]
    {
      sample := new PolytopeCone([0.0, 0.0, 0.0]);
      sample.AddPlaneWithNormal([-1.0, 0.0, 0.0]);
      sample.AddPlaneWithNormal([0.0, -1.0, 0.0]);
      sample.AddPlaneWithNormal([0.0, 0.0, -1.0]);
    }

    /** The index of the half-space with the largest distance to y; the first one on a tie. */
    function AlmostNearest(y: Point, g: Geometry): (r: Result<nat, Error>)
      reads this
      ensures r.Failure? <==> |halfSpaces| == 0
      ensures r.Success? ==> r.value < |halfSpaces|
      ensures r.Success? ==> forall j | 0 <= j < |halfSpaces| :: g.d(halfSpaces[j], y) <= g.d(halfSpaces[r.value], y)
      ensures r.Success? ==> forall j | 0 <= j < r.value :: g.d(halfSpaces[j], y) < g.d(halfSpaces[r.value], y)
    {
      if |halfSpaces| == 0 then Failure(NoSuchElement)
      else
        FirstMaxIsFirstMaximum(halfSpaces, g.d, y, |halfSpaces|);
        Success(FirstMax(halfSpaces, g.d, y, |halfSpaces|))
    }

    /** The candidate has been on the projection path before. */
    predicate IsLoop(projPath: set<nat>, candidate: nat): (r: bool)
      ensures r <==> candidate in projPath
    {
      candidate in projPath
    }

    /**
      The projection of y: walk from half-space to half-space until one repeats, then
      project onto the intersection of the boundaries on the cycle through it. m is the
      number of half-spaces on the path and q the number of boundaries intersected.
     */
    method Proj(y: Point, g: Geometry) returns (r: Result<Point, Error>, ghost m: nat, ghost q: nat)
      ensures r.Failure? <==> |halfSpaces| == 0
      ensures r.Success? ==> ProjWalk(Walk(halfSpaces, g, y), m, q)
      ensures r.Success? ==> CycleInRange(Walk(halfSpaces, g, y), m, q)
      ensures r.Success? ==>
        r.value == g.projOnto(Boundaries(halfSpaces, CycleOfWalk(Walk(halfSpaces, g, y), m, q)), y)
    {
      var start := AlmostNearest(y, g);
      if start.Failure? {
        return Failure(start.error), 0, 0;
      }
      ghost var w := Walk(halfSpaces, g, y);
      var candidate;
      ghost var j;
      candidate, m, j := WalkToRepeat(y, g, start.value);
      RepeatIsPeriodic(w, start.value, m, j);
      var intersection;
      intersection, q := IntersectCycle(y, g, candidate, m - j);
      CycleOfWalkDistinct(w, m, q);
      return Success(g.projOnto(Boundaries(halfSpaces, intersection), y)), m, q;
    }

    /**
      The first loop of proj: from start, add each candidate to projPath and move on,
      until the candidate is already on the path. It returns that candidate, the number
      m of half-spaces on the path and the step j at which the candidate was first met.
     */
    method WalkToRepeat(y: Point, g: Geometry, start: nat) returns (candidate: nat, ghost m: nat, ghost j: nat)
      requires |halfSpaces| > 0 && start == Start(Walk(halfSpaces, g, y))
      ensures 1 <= m <= |halfSpaces| && j < m
      ensures FirstRepeat(Walk(halfSpaces, g, y), start, m)
      ensures candidate == Iter(Walk(halfSpaces, g, y), start, m) == Iter(Walk(halfSpaces, g, y), start, j)
      ensures candidate < |halfSpaces|
    {
      ghost var w := Walk(halfSpaces, g, y);
      var projPath: set<nat> := {};
      ghost var path: seq<nat> := [];
      candidate := start;
      while !IsLoop(projPath, candidate)
        invariant candidate < |halfSpaces| && candidate == Iter(w, start, |path|)
        invariant PathOfWalk(w, start, path, projPath) && |projPath| <= |halfSpaces|
        decreases |halfSpaces| - |projPath|
      {
        WalkStep(w, start, path, projPath, candidate);
        projPath := projPath + {candidate};
        path := path + [candidate];
        candidate := AlmostNearest(g.proj(halfSpaces[candidate], y), g).value;
      }
      m := |path|;
      j := RepeatAt(w, start, path, projPath, candidate);
    }

    /**
      The second loop of proj: from the repeated candidate c, follow the walk and collect
      the boundaries met until it comes back to c; p is a number of steps after which it does.
     */
    method IntersectCycle(y: Point, g: Geometry, c: nat, ghost p: nat) returns (intersection: seq<nat>, ghost q: nat)
      requires c < |halfSpaces| && p >= 1 && Iter(Walk(halfSpaces, g, y), c, p) == c
      ensures 1 <= q <= p && FirstReturn(Walk(halfSpaces, g, y), c, q)
      ensures intersection == CycleFrom(Walk(halfSpaces, g, y), c, q)
    {
      ghost var w := Walk(halfSpaces, g, y);
      intersection := [c];
      var inAffineSpace := AlmostNearest(g.proj(halfSpaces[c], y), g).value;
      ghost var s := 1;
      while inAffineSpace != c
        invariant 1 <= s <= p
        invariant inAffineSpace == Iter(w, c, s) && inAffineSpace < |halfSpaces|
        invariant intersection == CycleFrom(w, c, s)
        invariant forall t | 0 < t < s :: Iter(w, c, t) != c
        decreases p - s
      {
        CycleFromNext(w, c, s);
        intersection := intersection + [inAffineSpace];
        inAffineSpace := AlmostNearest(g.proj(halfSpaces[inAffineSpace], y), g).value;
        s := s + 1;
      }
      q := s;
    }
  }

  /**
    path holds the first |path| steps of the walk from x0, pairwise distinct, as a list
    and as the set projPath, all among the cone's half-spaces.
   */
  ghost predicate PathOfWalk(w: Walk, x0: nat, path: seq<nat>, projPath: set<nat>)
  {
    && (forall k | 0 <= k < |path| :: path[k] == Iter(w, x0, k))
    && (forall a, b | 0 <= a < b < |path| :: path[a] != path[b])
    && (forall x :: x in projPath <==> x in path)
    && |projPath| == |path|
    && (forall x | x in projPath :: x < |w.hs|)
  }

  /** A candidate not yet on the path extends it, and the path still fits among the half-spaces. */
  lemma WalkStep(w: Walk, x0: nat, path: seq<nat>, projPath: set<nat>, candidate: nat)
    requires PathOfWalk(w, x0, path, projPath)
    requires candidate < |w.hs| && candidate == Iter(w, x0, |path|) && candidate !in projPath
    ensures PathOfWalk(w, x0, path + [candidate], projPath + {candidate})
    ensures |projPath + {candidate}| <= |w.hs|
  {
    IndicesBelowCard(projPath + {candidate}, |w.hs|);
  }

  /** A set of indices below n has at most n members. */
  lemma {:induction false} IndicesBelowCard(s: set<nat>, n: nat)
    requires forall x | x in s :: x < n
    ensures |s| <= n
    decreases n
  {
    if n > 0 {
      IndicesBelowCard(s - {n - 1}, n - 1);
    } else {
      assert s == {};
    }
  }

  /** When the walk stops, its candidate repeats step j of the path. */
  lemma RepeatAt(w: Walk, x0: nat, path: seq<nat>, projPath: set<nat>, candidate: nat) returns (j: nat)
    requires PathOfWalk(w, x0, path, projPath)
    requires candidate == Iter(w, x0, |path|) && candidate in projPath
    ensures j < |path| && Iter(w, x0, j) == Iter(w, x0, |path|)
    ensures FirstRepeat(w, x0, |path|)
  {
    j :| 0 <= j < |path| && path[j] == candidate;
  }

  lemma CycleFromNext(w: Walk, c: nat, s: nat)
    ensures CycleFrom(w, c, s) + [Iter(w, c, s)] == CycleFrom(w, c, s + 1)
  {
  }

  /** The half-spaces through tip with the given normals, in order. */
  function ThroughTip(tip: Point, normals: seq<Point>): (r: seq<HalfSpace>)
    ensures |r| == |normals|
    ensures forall i | 0 <= i < |normals| :: r[i] == HalfSpace(tip, normals[i])
  {
    if normals == [] then [] else [HalfSpace(tip, normals[0])] + ThroughTip(tip, normals[1..])
  }
}
