/**
  The nearest-bone rule of `parent_to_nearest_bone`: every pose bone gets a
  score, the larger of the distances from the object's location to the
  bone's world-space head and tail, and the scan keeps the first bone with
  the smallest score.

  Scores here are squared distances (see module Geometry); lemma
  LengthScanAgrees shows that the first minimum of the source's unsquared
  scores is the bone chosen on squared scores.
*/
module NearestBone {
  import opened Wrappers
  import opened Geometry

  /** A pose bone: its head and tail in the armature's own space. */
  datatype Bone = Bone(head: Vec3, tail: Vec3)

  /**
    The squared score of `bone` for an object at `location`, with the armature's
    world transform `matrixWorld`: the larger of the squared distances to the
    world-space tail and to the world-space head.
  */
  function Score(location: Vec3, matrixWorld: Affine, bone: Bone): (s: real)
    ensures s >= DistSq(location, Apply(matrixWorld, bone.tail))
    ensures s >= DistSq(location, Apply(matrixWorld, bone.head))
    ensures s == DistSq(location, Apply(matrixWorld, bone.tail)) || s == DistSq(location, Apply(matrixWorld, bone.head))
  {
    Max(DistSq(location, Apply(matrixWorld, bone.tail)),
        DistSq(location, Apply(matrixWorld, bone.head)))
  }

  /** The scores of all bones, in enumeration order. */
  function Scores(location: Vec3, matrixWorld: Affine, bones: seq<Bone>): (s: seq<real>)
    ensures |s| == |bones|
    ensures forall j :: 0 <= j < |bones| ==> s[j] == Score(location, matrixWorld, bones[j])
  {
    seq(|bones|, j requires 0 <= j < |bones| => Score(location, matrixWorld, bones[j]))
  }

  /** `k` is the first position of a smallest element of `s`. */
  ghost predicate IsFirstMin(s: seq<real>, k: nat) {
    && k < |s|
    && (forall j :: 0 <= j < |s| ==> s[k] <= s[j])
    && (forall j :: 0 <= j < k ==> s[k] < s[j])
  }

  /**
    Reference definition of the choice, written from the front of the sequence
    (the scan in FindNearestBone runs the other way round): the first position
    of a minimum, or None for an empty sequence.
  */
  function FirstMin(s: seq<real>): (r: Option<nat>)
    ensures r.None? <==> |s| == 0
    ensures r.Some? ==> r.value < |s|
    ensures r.Some? ==> forall j :: 0 <= j < |s| ==> s[r.value] <= s[j]
    ensures r.Some? ==> forall j :: 0 <= j < r.value ==> s[r.value] < s[j]
  {
    if |s| == 0 then None
    else match FirstMin(s[1..])
      case None => Some(0)
      case Some(k) => if s[0] <= s[k + 1] then Some(0) else Some(k + 1)
  }

  /** At most one position is the first minimum, so the choice is deterministic. */
  lemma FirstMinUnique(s: seq<real>, k: nat)
    requires IsFirstMin(s, k)
    ensures FirstMin(s) == Some(k)
  {
  }

  /**
    The choice depends only on how the scores compare, so any strictly
    order-preserving change of the scores (such as squaring lengths) picks
    the same position.
  */
  lemma FirstMinOrderInvariant(s: seq<real>, t: seq<real>)
    requires |s| == |t|
    requires forall i, j :: 0 <= i < |s| && 0 <= j < |s| ==> (s[i] < s[j] <==> t[i] < t[j])
    ensures FirstMin(s) == FirstMin(t)
  {
  }

  /** The index of the bone the add-on parents to, or None when there are no bones. */
  function NearestBoneIndex(location: Vec3, matrixWorld: Affine, bones: seq<Bone>): (r: Option<nat>)
    ensures r.None? <==> |bones| == 0
    ensures r.Some? ==> r.value < |bones|
    ensures r.Some? ==> forall j :: 0 <= j < |bones| ==>
      Score(location, matrixWorld, bones[r.value]) <= Score(location, matrixWorld, bones[j])
    ensures r.Some? ==> forall j :: 0 <= j < r.value ==>
      Score(location, matrixWorld, bones[r.value]) < Score(location, matrixWorld, bones[j])
  {
    FirstMin(Scores(location, matrixWorld, bones))
  }

  /**
    `lengths` holds, for every bone, the two lengths the source compares at its
    score: `lengths[j].0` is the distance to the world-space tail and
    `lengths[j].1` the distance to the world-space head.
  */
  ghost predicate AreBoneLengths(location: Vec3, matrixWorld: Affine, bones: seq<Bone>, lengths: seq<(real, real)>) {
    && |lengths| == |bones|
    && forall j :: 0 <= j < |bones| ==>
         && 0.0 <= lengths[j].0 && Square(lengths[j].0) == DistSq(location, Apply(matrixWorld, bones[j].tail))
         && 0.0 <= lengths[j].1 && Square(lengths[j].1) == DistSq(location, Apply(matrixWorld, bones[j].head))
  }

  /**
    The first minimum of the unsquared scores `max(tail length, head length)`
    is the bone chosen on the squared scores.
  */
  lemma LengthScanAgrees(location: Vec3, matrixWorld: Affine, bones: seq<Bone>, lengths: seq<(real, real)>)
    requires AreBoneLengths(location, matrixWorld, bones, lengths)
    ensures FirstMin(seq(|bones|, j requires 0 <= j < |bones| => Max(lengths[j].0, lengths[j].1)))
         == NearestBoneIndex(location, matrixWorld, bones)
  {
    var byLength := seq(|bones|, j requires 0 <= j < |bones| => Max(lengths[j].0, lengths[j].1));
    var bySquare := Scores(location, matrixWorld, bones);
    forall i, j | 0 <= i < |bones| && 0 <= j < |bones|
      ensures byLength[i] < byLength[j] <==> bySquare[i] < bySquare[j]
    {
      MaxOfLengthsOrder(lengths[i].0, lengths[i].1, lengths[j].0, lengths[j].1);
    }
    FirstMinOrderInvariant(byLength, bySquare);
  }

  /**
    The scan of lines 40-47: a running minimum, replaced only on a strictly
    smaller score, so the earliest bone wins a tie.  `minDistance == None`
    plays the part of the initial `float('inf')`.
  */
  method FindNearestBone(location: Vec3, matrixWorld: Affine, bones: seq<Bone>) returns (nearest: Option<nat>)
    ensures nearest.None? <==> |bones| == 0
    ensures nearest.Some? ==> nearest.value < |bones|
    ensures nearest.Some? ==> forall j :: 0 <= j < |bones| ==>
      Score(location, matrixWorld, bones[nearest.value]) <= Score(location, matrixWorld, bones[j])
    ensures nearest.Some? ==> forall j :: 0 <= j < nearest.value ==>
      Score(location, matrixWorld, bones[nearest.value]) < Score(location, matrixWorld, bones[j])
    ensures nearest == NearestBoneIndex(location, matrixWorld, bones)
  {
    nearest := None;
    var minDistance: Option<real> := None;
    for i := 0 to |bones|
      invariant nearest.None? <==> i == 0
      invariant minDistance.None? <==> nearest.None?
      invariant nearest.Some? ==> nearest.value < i
      invariant nearest.Some? ==> minDistance.value == Score(location, matrixWorld, bones[nearest.value])
      invariant nearest.Some? ==> forall j :: 0 <= j < i ==> minDistance.value <= Score(location, matrixWorld, bones[j])
      invariant nearest.Some? ==> forall j :: 0 <= j < nearest.value ==> minDistance.value < Score(location, matrixWorld, bones[j])
    {
      var distance := Score(location, matrixWorld, bones[i]);
      if minDistance.None? || distance < minDistance.value {
        minDistance := Some(distance);
        nearest := Some(i);
      }
    }
    if nearest.Some? {
      FirstMinUnique(Scores(location, matrixWorld, bones), nearest.value);
    }
  }

  /** The score of a bone lying on the z axis, for an object on the z axis, under the identity transform. */
  lemma ZAxisScore(z: real, head: real, tail: real)
    ensures Score(Vec3(0.0, 0.0, z), Identity, Bone(Vec3(0.0, 0.0, head), Vec3(0.0, 0.0, tail)))
         == Max(Square(z - tail), Square(z - head))
  {
  }

  /** Of two bones, the first is chosen when its score is strictly smaller. */
  lemma SmallerFirstChosen(location: Vec3, matrixWorld: Affine, a: Bone, b: Bone)
    requires Score(location, matrixWorld, a) < Score(location, matrixWorld, b)
    ensures NearestBoneIndex(location, matrixWorld, [a, b]) == Some(0)
  {
    var scores := Scores(location, matrixWorld, [a, b]);
    FirstMinUnique(scores, 0);
  }

  /** The scores of the two bones of the example below. */
  lemma ExampleScores()
    ensures Score(Vec3(0.0, 0.0, 0.4), Identity, Bone(Origin, Vec3(0.0, 0.0, 1.0))) == 0.36
    ensures Score(Vec3(0.0, 0.0, 0.4), Identity, Bone(Vec3(0.0, 0.0, 2.0), Vec3(0.0, 0.0, 3.0))) == 6.76
  {
    ZAxisScore(0.4, 0.0, 1.0);
    ZAxisScore(0.4, 2.0, 3.0);
    assert Square(0.4) == 0.16;
    assert Square(-0.6) == 0.36;
    assert Square(-1.6) == 2.56;
    assert Square(-2.6) == 6.76;
  }

  /**
    The two-bone example: bone A from (0,0,0) to (0,0,1), bone B from (0,0,2)
    to (0,0,3), identity world transform, object at (0,0,0.4); A is chosen,
    with squared score 0.36 (length 0.6) against 6.76 (length 2.6).
  */
  lemma TwoBoneExample()
    ensures NearestBoneIndex(Vec3(0.0, 0.0, 0.4), Identity,
                             [Bone(Origin, Vec3(0.0, 0.0, 1.0)), Bone(Vec3(0.0, 0.0, 2.0), Vec3(0.0, 0.0, 3.0))])
         == Some(0)
  {
    ExampleScores();
    SmallerFirstChosen(Vec3(0.0, 0.0, 0.4), Identity, Bone(Origin, Vec3(0.0, 0.0, 1.0)), Bone(Vec3(0.0, 0.0, 2.0), Vec3(0.0, 0.0, 3.0)));
  }
}
