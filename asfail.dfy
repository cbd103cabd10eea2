/**
  The failure memo of one affine space in the projection search. It records the point
  at which the space was last shown not to hold the projection, and whether the space
  might still hold it. It decides the latter from the failure points that the spaces
  one level down have recorded. The geometric tests of the space's node (the half-space
  tests, the local membership test and the closed-form projection test) are given as
  functions.
 */
module ASFails {
  import opened Wrappers

  datatype Error = NullPointer   // a one-down key missing from the lower level

  /** The key of a neighbour one level down and the index of the plane it lacks. */
  datatype OneDownKey<K> = OneDownKey(key: K, removeIndex: int)

  /** What the memo uses of its node. */
  datatype ASNode<!P, K> = ASNode(
    belowFirstPlane: P -> bool,     // planeList[0].below
    hasProjFunc: bool,              // as.hasProjFunc()
    localHasElement: P -> bool,
    oneDown: seq<OneDownKey<K>>,    // as.oneDownKeys()
    above: (int, P) -> bool)        // planeList[i].above

  /** The two fields of a lower-level memo that the scan reads; None stands for a null failure point. */
  datatype Snapshot<P> = Snapshot(mightContProj: bool, failed: Option<P>)

  /** How the scan over the one-down neighbours ends. */
  datatype ScanEnd<P> =
    | FailedAt(point: P)            // fail(point) is called
    | Completed                     // every neighbour is passed
    | MissingKey(checked: set<P>)   // a neighbour is absent; the checked set as it then stands

  /** A neighbour that might contain the projection and has a failure point. */
  predicate IsCandidate<P>(s: Snapshot<P>)
  {
    s.mightContProj && s.failed.Some?
  }

  /** A neighbour ruled out with a failure point: its point is added to the checked set. */
  predicate IsRecorded<P>(s: Snapshot<P>)
  {
    !s.mightContProj && s.failed.Some?
  }

  /** Some neighbour from i on is absent from the lower level. */
  predicate MissingFrom<P, K(==)>(node: ASNode<P, K>, lower: map<K, Snapshot<P>>, i: nat)
  {
    exists j | i <= j < |node.oneDown| :: node.oneDown[j].key !in lower
  }

  /** Some neighbour from i on has failure point p, above the plane it lacks. */
  predicate AboveFrom<P(==), K(==)>(node: ASNode<P, K>, lower: map<K, Snapshot<P>>, i: nat, p: P)
  {
    exists j | i <= j < |node.oneDown| ::
      && node.oneDown[j].key in lower
      && lower[node.oneDown[j].key].failed == Some(p)
      && node.above(node.oneDown[j].removeIndex, p)
  }

  /** The loop of mightContainProj from neighbour i on, with the checked set as it stands there. */
  function ScanFrom<P(==), K(==)>(node: ASNode<P, K>, lower: map<K, Snapshot<P>>, i: nat, checked: set<P>): (r: ScanEnd<P>)
    requires i <= |node.oneDown|
    ensures r.MissingKey? ==> checked <= r.checked && MissingFrom(node, lower, i)
    ensures r.FailedAt? ==> AboveFrom(node, lower, i, r.point)
    decreases |node.oneDown| - i
  {
    if i == |node.oneDown| then Completed
    else
      var d := node.oneDown[i];
      if d.key !in lower then MissingKey(checked)
      else
        var s := lower[d.key];
        if IsCandidate(s) then
          if node.above(d.removeIndex, s.failed.value) then FailedAt(s.failed.value)
          else ScanFrom(node, lower, i + 1, checked)
        else if s.failed.Some? then
          if s.failed.value in checked && node.above(d.removeIndex, s.failed.value) then FailedAt(s.failed.value)
          else ScanFrom(node, lower, i + 1, checked + {s.failed.value})
        else ScanFrom(node, lower, i + 1, checked)
  }

  /** The failure points of the recorded neighbours among the first j. */
  function Added<P(==), K(==)>(node: ASNode<P, K>, lower: map<K, Snapshot<P>>, j: nat): set<P>
    requires j <= |node.oneDown|
  {
    set l | 0 <= l < j && node.oneDown[l].key in lower && IsRecorded(lower[node.oneDown[l].key])
      :: lower[node.oneDown[l].key].failed.value
  }

  /**
    Neighbour j makes the space fail: its failure point lies above the plane it lacks, and
    either it is a candidate or its point was seen before, in the initial checked set or
    as the point of an earlier recorded neighbour.
   */
  predicate Triggers<P(==), K(==)>(node: ASNode<P, K>, lower: map<K, Snapshot<P>>, checked0: set<P>, j: nat)
    requires j < |node.oneDown|
  {
    var d := node.oneDown[j];
    && d.key in lower
    && lower[d.key].failed.Some?
    && node.above(d.removeIndex, lower[d.key].failed.value)
    && (IsCandidate(lower[d.key]) || lower[d.key].failed.value in checked0 + Added(node, lower, j))
  }

  /** Neighbour j ends the scan: it is missing or it triggers. */
  predicate Stops<P(==), K(==)>(node: ASNode<P, K>, lower: map<K, Snapshot<P>>, checked0: set<P>, j: nat)
    requires j < |node.oneDown|
  {
    node.oneDown[j].key !in lower || Triggers(node, lower, checked0, j)
  }

  /** Passing neighbour j adds its point to the recorded ones exactly when it is recorded. */
  lemma AddedStep<P, K>(node: ASNode<P, K>, lower: map<K, Snapshot<P>>, j: nat)
    requires j < |node.oneDown| && node.oneDown[j].key in lower
    ensures Added(node, lower, j + 1) ==
      Added(node, lower, j) + (if IsRecorded(lower[node.oneDown[j].key]) then {lower[node.oneDown[j].key].failed.value} else {})
  {
  }

  /**
    A neighbour that does not stop the scan passes it on to the next one, with the
    checked set of the next one.
   */
  lemma PassOn<P, K>(node: ASNode<P, K>, lower: map<K, Snapshot<P>>, checked0: set<P>, i: nat)
    requires i < |node.oneDown| && !Stops(node, lower, checked0, i)
    ensures ScanFrom(node, lower, i, checked0 + Added(node, lower, i)) ==
      ScanFrom(node, lower, i + 1, checked0 + Added(node, lower, i + 1))
  {
    var s := lower[node.oneDown[i].key];
    AddedStep(node, lower, i);
    if IsRecorded(s) {
      assert checked0 + Added(node, lower, i) + {s.failed.value} == checked0 + Added(node, lower, i + 1);
    } else {
      assert Added(node, lower, i + 1) == Added(node, lower, i);
    }
  }

  /** A neighbour that stops the scan ends it: at a missing key with the checked set so far, or by failing at its point. */
  lemma StopHere<P, K>(node: ASNode<P, K>, lower: map<K, Snapshot<P>>, checked0: set<P>, i: nat)
    requires i < |node.oneDown| && Stops(node, lower, checked0, i)
    ensures ScanFrom(node, lower, i, checked0 + Added(node, lower, i)) ==
      if node.oneDown[i].key !in lower then MissingKey(checked0 + Added(node, lower, i))
      else FailedAt(lower[node.oneDown[i].key].failed.value)
  {
  }

  /** The scan fails at p only at a neighbour that triggers with failure point p, after none stopped it. */
  lemma {:induction false} ScanFailedAt<P, K>(node: ASNode<P, K>, lower: map<K, Snapshot<P>>, checked0: set<P>, i: nat, p: P)
    requires i <= |node.oneDown|
    requires ScanFrom(node, lower, i, checked0 + Added(node, lower, i)) == FailedAt(p)
    ensures exists j | i <= j < |node.oneDown| ::
      && Triggers(node, lower, checked0, j)
      && lower[node.oneDown[j].key].failed == Some(p)
      && forall l | i <= l < j :: !Stops(node, lower, checked0, l)
    decreases |node.oneDown| - i
  {
    if Stops(node, lower, checked0, i) {
      StopHere(node, lower, checked0, i);
    } else {
      PassOn(node, lower, checked0, i);
      ScanFailedAt(node, lower, checked0, i + 1, p);
    }
  }

  /** The scan completes exactly when no neighbour from i on is missing or triggers. */
  lemma {:induction false} ScanCompletes<P, K>(node: ASNode<P, K>, lower: map<K, Snapshot<P>>, checked0: set<P>, i: nat)
    requires i <= |node.oneDown|
    ensures ScanFrom(node, lower, i, checked0 + Added(node, lower, i)) == Completed <==>
      forall j | i <= j < |node.oneDown| :: !Stops(node, lower, checked0, j)
    decreases |node.oneDown| - i
  {
    if i < |node.oneDown| {
      if Stops(node, lower, checked0, i) {
        StopHere(node, lower, checked0, i);
      } else {
        PassOn(node, lower, checked0, i);
        ScanCompletes(node, lower, checked0, i + 1);
      }
    }
  }

  /**
    The scan meets a missing neighbour only at the first neighbour that is missing, after
    none triggered; the checked set then holds the recorded points before it.
   */
  lemma {:induction false} ScanMissing<P, K>(node: ASNode<P, K>, lower: map<K, Snapshot<P>>, checked0: set<P>, i: nat, c: set<P>)
    requires i <= |node.oneDown|
    requires ScanFrom(node, lower, i, checked0 + Added(node, lower, i)) == MissingKey(c)
    ensures exists j | i <= j < |node.oneDown| ::
      && node.oneDown[j].key !in lower
      && c == checked0 + Added(node, lower, j)
      && forall l | i <= l < j :: !Stops(node, lower, checked0, l)
    decreases |node.oneDown| - i
  {
    if Stops(node, lower, checked0, i) {
      StopHere(node, lower, checked0, i);
    } else {
      PassOn(node, lower, checked0, i);
      ScanMissing(node, lower, checked0, i + 1, c);
    }
  }

  class ASFail<P(==), K(==)> {
    const asNode: ASNode<P, K>
    /** The point at which the space was last shown not to hold the projection; None for null. */
    var failed: Option<P>
    var mightContProj: bool
    /** Failure points of ruled-out neighbours met so far in the current scan. */
    var checked: set<P>

    constructor (asNode: ASNode<P, K>)
      ensures this.asNode == asNode
      ensures failed.None? && checked == {} && !mightContProj
    {
      this.asNode := asNode;
      failed := None;
      checked := {};
      mightContProj := false;
    }

    /** Between calls the checked set is empty. */
    predicate Idle()
      reads this
    {
      checked == {}
    }

    method SetMightContainProj(might: bool) returns (self: ASFail<P, K>)
      modifies this`mightContProj
      ensures self == this && mightContProj == might
    {
      mightContProj := might;
      return this;
    }

    /** Records the failure point p and rules the space out. */
    method Fail(p: P) returns (r: bool)
      modifies this`checked, this`failed, this`mightContProj
      ensures !r && !mightContProj
      ensures failed == Some(p) && checked == {}
    {
      checked := {};
      failed := Some(p);
      mightContProj := false;
      return false;
    }

    method ClearFailures()
      modifies this`failed
      ensures failed.None?
    {
      failed := None;
    }

    /** The space is not on the first level, has no closed-form projection and does not hold preProj itself. */
    predicate Scans(lowerLevel: Option<map<K, Snapshot<P>>>, preProj: P)
    {
      lowerLevel.Some? && !asNode.hasProjFunc && !asNode.localHasElement(preProj)
    }

    /**
      Whether the space might still contain the projection of preProj, recorded in
      mightContProj; lowerLevel is None on the first level.
     */
    method MightContainProj(lowerLevel: Option<map<K, Snapshot<P>>>, preProj: P) returns (r: Result<bool, Error>)
      modifies this`checked, this`failed, this`mightContProj
      ensures lowerLevel.None? ==>
        r == Success(asNode.belowFirstPlane(preProj)) && failed == old(failed) && checked == old(checked)
      ensures lowerLevel.Some? && asNode.hasProjFunc ==>
        r == Success(true) && failed == old(failed) && checked == old(checked)
      ensures lowerLevel.Some? && !asNode.hasProjFunc && asNode.localHasElement(preProj) ==>
        r == Success(false) && failed == old(failed) && checked == old(checked)
      ensures Scans(lowerLevel, preProj) ==>
        match ScanFrom(asNode, lowerLevel.value, 0, old(checked))
        case Completed => r == Success(true) && failed == old(failed) && checked == {}
        case FailedAt(p) => r == Success(false) && failed == Some(p) && checked == {}
        case MissingKey(c) =>
          r == Failure(NullPointer) && failed == old(failed) && checked == c && mightContProj == old(mightContProj)
      ensures r.Success? ==> mightContProj == r.value
      ensures r.Success? && old(Idle()) ==> Idle()
    {
      if lowerLevel.None? {
        mightContProj := asNode.belowFirstPlane(preProj);
        return Success(mightContProj);
      }
      if asNode.hasProjFunc {
        mightContProj := true;
        return Success(true);
      }
      if asNode.localHasElement(preProj) {
        mightContProj := false;
        return Success(false);
      }
      var lower := lowerLevel.value;
      var oneDown := asNode.oneDown;
      var i := 0;
      while i < |oneDown|
        invariant 0 <= i <= |oneDown|
        invariant failed == old(failed) && mightContProj == old(mightContProj)
        invariant ScanFrom(asNode, lower, i, checked) == ScanFrom(asNode, lower, 0, old(checked))
      {
        var oneDownAS := oneDown[i];
        if oneDownAS.key !in lower {
          return Failure(NullPointer);
        }
        var oneDownI := lower[oneDownAS.key];
        if oneDownI.mightContProj && oneDownI.failed.Some? {
          var proj := oneDownI.failed.value;
          if asNode.above(oneDownAS.removeIndex, proj) {
            var b := Fail(proj);
            return Success(b);
          }
        } else if oneDownI.failed.Some? {
          var added := oneDownI.failed.value !in checked;
          checked := checked + {oneDownI.failed.value};
          if !added && asNode.above(oneDownAS.removeIndex, oneDownI.failed.value) {
            var b := Fail(oneDownI.failed.value);
            return Success(b);
          }
        }
        i := i + 1;
      }
      checked := {};
      mightContProj := true;
      return Success(true);
    }
  }
}
