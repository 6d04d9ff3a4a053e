/**
  The continuous body of the hand-tracked snake: a time-ordered list of
  visited points (oldest first), a parallel list holding the length of the
  step that reached each point, and the running total of those lengths.

  Step lengths are exact non-negative reals; the floating-point rounding of
  the running total is not modelled.
 */
module SnakeTrail {
  import opened Geometry

  datatype Trail = Trail(points: seq<Point>, lengths: seq<real>, currentLength: real)

  /** A trail with no points, as the game starts and restarts. */
  const EmptyTrail := Trail([], [], 0.0)

  /** Total of a list of step lengths. */
  function Sum(s: seq<real>): real
  {
    if |s| == 0 then 0.0 else s[0] + Sum(s[1..])
  }

  predicate NonNegative(s: seq<real>)
  {
    forall i :: 0 <= i < |s| ==> s[i] >= 0.0
  }

  /** `a` is what remains of `b` after removing some elements from its front. */
  predicate IsSuffix<T(==)>(a: seq<T>, b: seq<T>)
  {
    |a| <= |b| && a == b[|b| - |a|..]
  }

  /** The trail's bookkeeping is consistent: the two lists move in lockstep,
      the running total is the true sum, and no step is negative. */
  predicate WellFormed(t: Trail)
  {
    && |t.points| == |t.lengths|
    && t.currentLength == Sum(t.lengths)
    && NonNegative(t.lengths)
  }

  lemma {:induction false} SumAppend(s: seq<real>, x: real)
    ensures Sum(s + [x]) == Sum(s) + x
  {
    if |s| == 0 {
      assert s + [x] == [x];
    } else {
      assert (s + [x])[1..] == s[1..] + [x];
      SumAppend(s[1..], x);
    }
  }

  /** Records a new head reached by a step of length `step`: the point and the
      length are pushed on the newest end and the step joins the running total. */
  function Append(t: Trail, head: Point, step: real): (r: Trail)
    ensures WellFormed(t) && step >= 0.0 ==> WellFormed(r)
  {
    SumAppend(t.lengths, step);
    Trail(t.points + [head], t.lengths + [step], t.currentLength + step)
  }

  /** One round of the trimming loop: the oldest step leaves the running
      total, and the oldest length and point are popped together. */
  function PopOldest(t: Trail): (r: Trail)
    requires |t.points| == |t.lengths| > 0
    ensures |r.points| == |r.lengths| == |t.lengths| - 1
    ensures r.points == t.points[1..] && r.lengths == t.lengths[1..]
    ensures r.currentLength == t.currentLength - t.lengths[0]
    ensures WellFormed(t) ==> WellFormed(r)
  {
    var r := Trail(t.points[1..], t.lengths[1..], t.currentLength - t.lengths[0]);
    assert WellFormed(t) ==> NonNegative(r.lengths) by {
      forall i | 0 <= i < |r.lengths| ensures r.lengths[i] == t.lengths[i + 1] { }
    }
    r
  }

  /** Removes whole steps from the oldest end while the running total exceeds
      `allowed` and steps remain: what is left is a suffix of both lists, in
      lockstep, and fits in `allowed` unless the lists ran out. */
  function Trim(t: Trail, allowed: real): (r: Trail)
    requires |t.points| == |t.lengths|
    ensures IsSuffix(r.points, t.points) && IsSuffix(r.lengths, t.lengths)
    ensures |r.points| == |r.lengths|
    ensures r.currentLength <= allowed || r.lengths == []
    decreases |t.lengths|
  {
    if t.currentLength > allowed && |t.lengths| > 0 then Trim(PopOldest(t), allowed) else t
  }

  /** Trimming keeps the bookkeeping consistent: each removal subtracts
      exactly the popped length from the running total. */
  lemma {:induction false} TrimPreservesWellFormed(t: Trail, allowed: real)
    requires WellFormed(t)
    ensures WellFormed(Trim(t, allowed))
    decreases |t.lengths|
  {
    if t.currentLength > allowed && |t.lengths| > 0 {
      TrimPreservesWellFormed(PopOldest(t), allowed);
    }
  }

  /** Trimming removes from the oldest end only, so the newest point survives
      whenever anything does. */
  lemma {:induction false} TrimKeepsNewest(t: Trail, allowed: real)
    requires |t.points| == |t.lengths| > 0
    ensures var r := Trim(t, allowed);
            |r.points| > 0 ==> r.points[|r.points| - 1] == t.points[|t.points| - 1]
    decreases |t.lengths|
  {
    if t.currentLength > allowed {
      var rest := PopOldest(t);
      if |rest.lengths| > 0 {
        TrimKeepsNewest(rest, allowed);
      }
    }
  }

  /** Each removal was forced: with `k` steps removed, every trail the loop
      shortened (the suffixes of the lengths starting before `k`) was longer
      than `allowed`. */
  lemma {:induction false} TrimRemovesOnlyTheExcess(t: Trail, allowed: real)
    requires WellFormed(t)
    ensures var k := |t.lengths| - |Trim(t, allowed).lengths|;
            forall j :: 0 <= j < k ==> Sum(t.lengths[j..]) > allowed
    decreases |t.lengths|
  {
    if t.currentLength > allowed && |t.lengths| > 0 {
      var rest := PopOldest(t);
      TrimRemovesOnlyTheExcess(rest, allowed);
      var k := |t.lengths| - |Trim(t, allowed).lengths|;
      forall j | 0 <= j < k
        ensures Sum(t.lengths[j..]) > allowed
      {
        if j == 0 {
          assert t.lengths[0..] == t.lengths;
        } else {
          assert t.lengths[j..] == rest.lengths[j - 1..];
        }
      }
    }
  }

  /** Trimming never overshoots by more than one step: if anything was
      removed, putting back the last removed step would exceed `allowed`. */
  lemma TrimOvershootsByLessThanOneStep(t: Trail, allowed: real)
    requires WellFormed(t)
    ensures var r := Trim(t, allowed);
            var k := |t.lengths| - |r.lengths|;
            k > 0 ==> t.lengths[k - 1] + r.currentLength > allowed
  {
    var r := Trim(t, allowed);
    var k := |t.lengths| - |r.lengths|;
    if k > 0 {
      TrimRemovesOnlyTheExcess(t, allowed);
      TrimPreservesWellFormed(t, allowed);
      assert Sum(t.lengths[k - 1..]) > allowed;
      assert t.lengths[k - 1..][1..] == r.lengths;
    }
  }

  /** While the total exceeds `allowed` and steps remain, trimming is one
      round of the loop followed by trimming the rest. */
  lemma TrimStep(t: Trail, allowed: real)
    requires |t.points| == |t.lengths| > 0 && t.currentLength > allowed
    ensures Trim(t, allowed) == Trim(PopOldest(t), allowed)
  {
  }

  /** The trimming loop as written, popping the oldest length and point and
      subtracting the popped length on each round; it computes `Trim`. */
  method TrimInPlace(t: Trail, allowed: real) returns (r: Trail)
    requires |t.points| == |t.lengths|
    ensures r == Trim(t, allowed)
  {
    var points, lengths, current := t.points, t.lengths, t.currentLength;
    while current > allowed && |lengths| > 0
      invariant |points| == |lengths|
      invariant Trim(Trail(points, lengths, current), allowed) == Trim(t, allowed)
      decreases |lengths|
    {
      ghost var before := Trail(points, lengths, current);
      TrimStep(before, allowed);
      current := current - lengths[0];
      lengths := lengths[1..];
      points := points[1..];
      assert Trail(points, lengths, current) == PopOldest(before);
    }
    r := Trail(points, lengths, current);
  }
}
