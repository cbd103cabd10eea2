/**
  Faces of a polyhedron with half-spaces 0..n-1, as the face search enumerates them.
  A face is the strictly increasing sequence of the indices of its active half-spaces;
  the empty face is the whole space. Level k holds the faces of codimension k.
 */
module Faces {
  import opened Combinatorics

  /** The active half-space indices of a face, in increasing order. */
  type Face = seq<int>

  predicate Increasing(f: Face)
  {
    forall i, j | 0 <= i < j < |f| :: f[i] < f[j]
  }

  /** f is a face of a polyhedron with n half-spaces. */
  predicate IsFace(f: Face, n: int)
  {
    Increasing(f) && forall i | 0 <= i < |f| :: 0 <= f[i] < n
  }

  /** The index of the last active half-space; -1 for the whole space. */
  function LastIndex(f: Face): int
  {
    if f == [] then -1 else f[|f| - 1]
  }

  /** The order-independent identity of a face: its set of active indices. */
  function FaceKey(f: Face): set<int>
  {
    set i | 0 <= i < |f| :: f[i]
  }

  /** Every face obtained by appending to a face of prev one index above its last one and below n. */
  function Children(prev: set<Face>, n: int): set<Face>
  {
    set f, j | f in prev && LastIndex(f) < j < n :: f + [j]
  }

  /** The faces of codimension k, generated level by level from the whole space. */
  function Level(n: nat, k: nat): set<Face>
  {
    if k == 0 then {[]} else Children(Level(n, k - 1), n)
  }

  /** Level k+1 is generated from level k. */
  lemma LevelNext(n: nat, k: nat)
    ensures Level(n, k + 1) == Children(Level(n, k), n)
  {
  }

  /** The faces of codimension at most m. */
  function FacesUpTo(n: nat, m: nat): set<Face>
  {
    if m == 0 then Level(n, 0) else FacesUpTo(n, m - 1) + Level(n, m)
  }

  /** The faces of length k whose indices all lie in [lo, n), split by whether lo is used. */
  function Tails(lo: int, n: int, k: nat): set<Face>
    decreases n - lo
  {
    if k == 0 then {[]}
    else if lo >= n then {}
    else Prepend(lo, Tails(lo + 1, n, k - 1)) + Tails(lo + 1, n, k)
  }

  function Prepend(x: int, s: set<Face>): set<Face>
  {
    set f | f in s :: [x] + f
  }

  /** Prepending a fixed index is injective, so it keeps the number of faces. */
  lemma {:induction false} PrependCard(x: int, s: set<Face>)
    ensures |Prepend(x, s)| == |s|
    decreases |s|
  {
    if s != {} {
      var f :| f in s;
      var rest := s - {f};
      PrependCard(x, rest);
      assert Prepend(x, s) == Prepend(x, rest) + {[x] + f};
      assert [x] + f !in Prepend(x, rest) by {
        forall h | h in rest ensures [x] + h != [x] + f {
          assert h == ([x] + h)[1..] && f == ([x] + f)[1..];
        }
      }
    }
  }

  /** Appending an index above the last one keeps a face a face. */
  lemma ChildIsFace(f: Face, j: int, n: int)
    requires IsFace(f, n) && LastIndex(f) < j < n
    ensures IsFace(f + [j], n)
  {
    forall i | 0 <= i < |f| ensures f[i] < j {
      assert f[i] <= f[|f| - 1];
    }
  }

  /** Level k holds exactly the strictly increasing length-k index sequences over 0..n-1. */
  lemma LevelMembers(n: nat, k: nat, f: Face)
    ensures f in Level(n, k) <==> |f| == k && IsFace(f, n)
  {
    if f in Level(n, k) {
      LevelSound(n, k, f);
    }
    if |f| == k && IsFace(f, n) {
      LevelComplete(n, k, f);
    }
  }

  lemma {:induction false} LevelSound(n: nat, k: nat, f: Face)
    requires f in Level(n, k)
    ensures |f| == k && IsFace(f, n)
  {
    if k > 0 {
      var g, j :| g in Level(n, k - 1) && LastIndex(g) < j < n && f == g + [j];
      LevelSound(n, k - 1, g);
      ChildIsFace(g, j, n);
    }
  }

  lemma {:induction false} LevelComplete(n: nat, k: nat, f: Face)
    requires |f| == k && IsFace(f, n)
    ensures f in Level(n, k)
  {
    if k > 0 {
      var g := f[..k - 1];
      var j := f[k - 1];
      assert IsFace(g, n);
      LevelComplete(n, k - 1, g);
      assert LastIndex(g) < j < n by {
        if g != [] {
          assert LastIndex(g) == f[k - 2];
        }
      }
      assert f == g + [j];
      assert f in Children(Level(n, k - 1), n);
    }
  }

  /** Every index of f lies in [lo, n). */
  predicate Within(f: Face, lo: int, n: int)
  {
    forall i | 0 <= i < |f| :: lo <= f[i] < n
  }

  /** Tails(lo, n, k) holds exactly the increasing length-k sequences over [lo, n). */
  lemma TailsMembers(lo: int, n: int, k: nat, f: Face)
    ensures f in Tails(lo, n, k) <==> |f| == k && Increasing(f) && Within(f, lo, n)
  {
    if f in Tails(lo, n, k) {
      TailsSound(lo, n, k, f);
    }
    if |f| == k && Increasing(f) && Within(f, lo, n) {
      TailsComplete(lo, n, k, f);
    }
  }

  lemma {:induction false} TailsSound(lo: int, n: int, k: nat, f: Face)
    requires f in Tails(lo, n, k)
    ensures |f| == k && Increasing(f) && Within(f, lo, n)
    decreases n - lo
  {
    if k > 0 {
      var t1 := Tails(lo + 1, n, k - 1);
      if f in Prepend(lo, t1) {
        var t :| t in t1 && f == [lo] + t;
        TailsSound(lo + 1, n, k - 1, t);
        assert forall i | 1 <= i < |f| :: f[i] == t[i - 1];
      } else {
        TailsSound(lo + 1, n, k, f);
      }
    }
  }

  lemma {:induction false} TailsComplete(lo: int, n: int, k: nat, f: Face)
    requires |f| == k && Increasing(f) && Within(f, lo, n)
    ensures f in Tails(lo, n, k)
    decreases n - lo
  {
    if k > 0 {
      assert lo <= f[0] < n;
      if f[0] == lo {
        var t := f[1..];
        assert forall i | 0 <= i < |t| :: t[i] == f[i + 1];
        TailsComplete(lo + 1, n, k - 1, t);
        assert f == [lo] + t;
        assert f in Prepend(lo, Tails(lo + 1, n, k - 1));
      } else {
        assert forall i | 0 <= i < |f| :: f[0] <= f[i];
        TailsComplete(lo + 1, n, k, f);
      }
    }
  }

  /** A count that follows Pascal's rule on the indices [lo, n) and has the binomial boundary values is C(n - lo, k). */
  lemma {:induction false} PascalCount(count: (int, nat) -> int, n: int, lo: int, k: nat, m: nat)
    requires m == n - lo
    requires forall l | l <= n :: count(l, 0) == 1
    requires forall j: nat | j > 0 :: count(n, j) == 0
    requires forall l, j: nat | l < n && j > 0 :: count(l, j) == count(l + 1, j - 1) + count(l + 1, j)
    ensures count(lo, k) == Choose(m, k)
    decreases m
  {
    if k > 0 && m > 0 {
      PascalCount(count, n, lo + 1, k - 1, m - 1);
      PascalCount(count, n, lo + 1, k, m - 1);
    }
  }

  /** The base cases of Tails: one empty face, and nothing once the indices run out. */
  lemma TailsBase(n: int)
    ensures forall l | l <= n :: |Tails(l, n, 0)| == 1
    ensures forall j: nat | j > 0 :: |Tails(n, n, j)| == 0
  {
  }

  /** Pascal's rule for Tails. */
  lemma TailsPascal(n: int)
    ensures forall l, j: nat | l < n && j > 0 :: |Tails(l, n, j)| == |Tails(l + 1, n, j - 1)| + |Tails(l + 1, n, j)|
  {
    forall l, j: nat | l < n && j > 0
      ensures |Tails(l, n, j)| == |Tails(l + 1, n, j - 1)| + |Tails(l + 1, n, j)|
    {
      TailsSplitCard(l, n, j);
    }
  }

  /** The faces using lo and those not using it are disjoint, so their numbers add up. */
  lemma TailsSplitCard(lo: int, n: int, k: nat)
    requires lo < n && k > 0
    ensures |Tails(lo, n, k)| == |Tails(lo + 1, n, k - 1)| + |Tails(lo + 1, n, k)|
  {
    var withLo, withoutLo := Prepend(lo, Tails(lo + 1, n, k - 1)), Tails(lo + 1, n, k);
    forall f | f in withLo ensures f !in withoutLo {
      var t :| t in Tails(lo + 1, n, k - 1) && f == [lo] + t;
      assert f[0] == lo;
      TailsMembers(lo + 1, n, k, f);
    }
    DisjointUnionCard(withLo, withoutLo);
    PrependCard(lo, Tails(lo + 1, n, k - 1));
  }

  /** Level k of a polyhedron with n half-spaces has C(n, k) faces. */
  lemma LevelCard(n: nat, k: nat)
    ensures |Level(n, k)| == Choose(n, k)
  {
    forall f ensures f in Level(n, k) <==> f in Tails(0, n, k) {
      LevelMembers(n, k, f);
      TailsMembers(0, n, k, f);
    }
    assert Level(n, k) == Tails(0, n, k);
    TailsBase(n);
    TailsPascal(n);
    PascalCount((l: int, j: nat) => |Tails(l, n, j)|, n, 0, k, n);
  }

  /** There are SumChoose(n, m) faces of codimension at most m. */
  lemma FacesUpToCard(n: nat, m: nat)
    ensures |FacesUpTo(n, m)| == SumChoose(n, m)
  {
    LevelCard(n, 0);
    forall i: nat | i > 0 ensures |FacesUpTo(n, i)| == |FacesUpTo(n, i - 1)| + Choose(n, i) {
      FacesUpToStep(n, i);
      LevelCard(n, i);
    }
    PartialSums((i: nat) => |FacesUpTo(n, i)|, n, m);
  }

  /** Adding level m to the faces below it adds C(n, m) new faces. */
  lemma FacesUpToStep(n: nat, m: nat)
    requires m > 0
    ensures |FacesUpTo(n, m)| == |FacesUpTo(n, m - 1)| + |Level(n, m)|
  {
    LevelsDisjoint(n, m);
    DisjointUnionCard(FacesUpTo(n, m - 1), Level(n, m));
  }

  /** A count that grows by C(n, i) at each step i from C(n, 0) is the partial sum SumChoose(n, m). */
  lemma {:induction false} PartialSums(count: nat -> int, n: nat, m: nat)
    requires count(0) == Choose(n, 0)
    requires forall i: nat | i > 0 :: count(i) == count(i - 1) + Choose(n, i)
    ensures count(m) == SumChoose(n, m)
  {
    if m > 0 {
      PartialSums(count, n, m - 1);
    }
  }

  lemma DisjointUnionCard<T>(a: set<T>, b: set<T>)
    requires a !! b
    ensures |a + b| == |a| + |b|
  {
  }

  lemma SubsetCard<T>(a: set<T>, b: set<T>)
    requires a <= b
    ensures |a| <= |b|
  {
    assert b == a + (b - a);
    DisjointUnionCard(a, b - a);
  }

  /** Level m shares no face with the levels below it: their faces are shorter. */
  lemma LevelsDisjoint(n: nat, m: nat)
    requires m > 0
    ensures forall f | f in Level(n, m) :: f !in FacesUpTo(n, m - 1)
  {
    forall f | f in Level(n, m) ensures f !in FacesUpTo(n, m - 1) {
      LevelSound(n, m, f);
      if f in FacesUpTo(n, m - 1) {
        FacesUpToShort(n, m - 1, f);
      }
    }
  }

  lemma {:induction false} FacesUpToShort(n: nat, m: nat, f: Face)
    requires f in FacesUpTo(n, m)
    ensures |f| <= m
  {
    if f in Level(n, m) {
      LevelMembers(n, m, f);
    } else {
      FacesUpToShort(n, m - 1, f);
    }
  }

  /** Faces whose keys differ pairwise. */
  predicate DistinctKeys(s: set<Face>)
  {
    forall f, g | f in s && g in s && FaceKey(f) == FaceKey(g) :: f == g
  }

  /** Keying faces with pairwise distinct keys keeps their number. */
  lemma {:induction false} KeysCard(s: set<Face>)
    requires DistinctKeys(s)
    ensures |set f | f in s :: FaceKey(f)| == |s|
    decreases |s|
  {
    if s != {} {
      var f :| f in s;
      var rest := s - {f};
      KeysCard(rest);
      assert (set g | g in s :: FaceKey(g)) == (set g | g in rest :: FaceKey(g)) + {FaceKey(f)};
    }
  }

  /** Faces of one level never share a key. */
  lemma LevelKeysDistinct(n: nat, k: nat)
    ensures DistinctKeys(Level(n, k))
  {
    forall f, g | f in Level(n, k) && g in Level(n, k) && FaceKey(f) == FaceKey(g) ensures f == g {
      LevelSound(n, k, f);
      LevelSound(n, k, g);
      SameKeySameFace(f, g);
    }
  }

  lemma EmptyKey(f: Face)
    ensures FaceKey(f) == {} <==> f == []
  {
    if f != [] {
      assert f[0] in FaceKey(f);
    }
  }

  /** Two faces with the same key are the same face: the key does not depend on construction order. */
  lemma {:induction false} SameKeySameFace(f: Face, g: Face)
    requires Increasing(f) && Increasing(g) && FaceKey(f) == FaceKey(g)
    ensures f == g
    decreases |f|
  {
    if f == [] {
      EmptyKey(g);
    } else {
      assert f[0] in FaceKey(g);
      assert g != [];
      assert g[0] in FaceKey(f);
      assert f[0] == g[0];
      assert FaceKey(f[1..]) == FaceKey(f) - {f[0]} by {
        assert forall i | 0 < i < |f| :: f[i] != f[0];
        assert forall i | 0 < i < |f| :: f[i] == f[1..][i - 1];
      }
      assert FaceKey(g[1..]) == FaceKey(g) - {g[0]} by {
        assert forall i | 0 < i < |g| :: g[i] != g[0];
        assert forall i | 0 < i < |g| :: g[i] == g[1..][i - 1];
      }
      SameKeySameFace(f[1..], g[1..]);
      assert f == [f[0]] + f[1..] && g == [g[0]] + g[1..];
    }
  }
}
