/**
  The add-on itself: `parent_to_nearest_bone(obj, armature)` and the
  operator's `execute`, over the scene model of module BlenderScene.

  The source prints or reports a message and returns `None` on every path
  of `parent_to_nearest_bone`; here the path taken is the returned Outcome.
*/
module ParentToNearestBoneAddon {
  import opened Wrappers
  import opened Geometry
  import opened NearestBone
  import opened BlenderScene

  /** Which path `parent_to_nearest_bone` took. */
  datatype Outcome =
    | InvalidInput     // object or armature missing
    | NotAMesh         // object's type is not 'MESH'
    | NotAnArmature    // armature's type is not 'ARMATURE'
    | NoBones          // the scan found no bone
    | Parented(bone: nat)

  /** The operator's return value. */
  datatype Status = Finished | Cancelled

  /** The bone `obj` is parented to within `armature`, judged from scene contents. */
  function ChosenBone(objects: seq<SceneObject>, obj: ObjectId, armature: ObjectId): Option<nat>
    requires obj < |objects| && armature < |objects|
  {
    NearestBoneIndex(objects[obj].location, objects[armature].matrixWorld, objects[armature].bones)
  }

  /**
    `after` is `before` once object `o` has been parented to bone `b` of
    armature `a`: only `o` and `a` are selected, `o`'s parent is the bone
    (transform not kept), `a`'s active bone is `b`, and nothing else changed.
  */
  ghost predicate ParentedTo(before: seq<SceneObject>, after: seq<SceneObject>, o: ObjectId, a: ObjectId, b: nat)
    requires o < |before| && a < |before|
  {
    && GeometryKept(before, after)
    && (forall i :: 0 <= i < |before| ==> after[i].selected == (i == o || i == a))
    && after[o].parent == ParentBone(a, b, false)
    && (forall i :: 0 <= i < |before| && i != o ==> after[i].parent == before[i].parent)
    && after[a].activeBone == Some(b)
    && (forall i :: 0 <= i < |before| && i != a ==> after[i].activeBone == before[i].activeBone)
  }

  /**
    Parents mesh `obj` to the bone of `armature` nearest to it.  Every
    rejection happens before the scan and leaves the scene as it was; so
    does an armature without bones.  On success, exactly the object and the
    armature are selected, the armature is active, its active bone is the
    chosen bone, and the object, and no other object, is re-parented to that
    bone without keeping its transform.
  */
  method ParentToNearestBone(scene: Scene, obj: Option<ObjectId>, armature: Option<ObjectId>) returns (outcome: Outcome)
    requires scene.Valid()
    requires obj.Some? ==> obj.value < |scene.objects|
    requires armature.Some? ==> armature.value < |scene.objects|
    modifies scene
    ensures scene.Valid() && |scene.objects| == |old(scene.objects)|
    ensures outcome == InvalidInput <==> obj.None? || armature.None?
    ensures outcome == NotAMesh <==>
      obj.Some? && armature.Some? && old(scene.objects)[obj.value].kind != Mesh
    ensures outcome == NotAnArmature <==>
      obj.Some? && armature.Some? && old(scene.objects)[obj.value].kind == Mesh
      && old(scene.objects)[armature.value].kind != Armature
    ensures outcome == NoBones <==>
      obj.Some? && armature.Some? && old(scene.objects)[obj.value].kind == Mesh
      && old(scene.objects)[armature.value].kind == Armature && |old(scene.objects)[armature.value].bones| == 0
    ensures outcome.Parented? <==>
      obj.Some? && armature.Some? && old(scene.objects)[obj.value].kind == Mesh
      && old(scene.objects)[armature.value].kind == Armature && |old(scene.objects)[armature.value].bones| > 0
    ensures !outcome.Parented? ==> scene.objects == old(scene.objects) && scene.active == old(scene.active)
    ensures outcome.Parented? ==>
      && Some(outcome.bone) == ChosenBone(old(scene.objects), obj.value, armature.value)
      && scene.active == armature
      && ParentedTo(old(scene.objects), scene.objects, obj.value, armature.value, outcome.bone)
  {
    if obj.None? || armature.None? {
      return InvalidInput;
    }
    var o, a := obj.value, armature.value;
    if scene.objects[o].kind != Mesh {
      return NotAMesh;
    }
    if scene.objects[a].kind != Armature {
      return NotAnArmature;
    }

    var objLocation := scene.objects[o].location;
    var nearest := FindNearestBone(objLocation, scene.objects[a].matrixWorld, scene.objects[a].bones);

    if nearest.Some? {
      ghost var s0 := scene.objects;
      scene.DeselectAll();
      ghost var s1 := scene.objects;
      scene.SelectSet(o, true);
      scene.SelectSet(a, true);
      scene.MakeActive(a);
      scene.SetActiveBone(a, nearest.value);
      ghost var s4 := scene.objects;
      var parented := scene.ParentSet(false);
      HostCallsParent(s0, s1, s4, scene.objects, o, a, nearest.value);
      outcome := Parented(nearest.value);
    } else {
      outcome := NoBones;
    }
  }

  /**
    The host calls of lines 51-60, from contents `s0`: deselect everything
    (`s1`), select `o` and `a` and set `a`'s active bone (`s4`), then
    `parent_set` with `a` active (`s5`).  Together they parent `o` to bone `b`.
  */
  lemma HostCallsParent(s0: seq<SceneObject>, s1: seq<SceneObject>, s4: seq<SceneObject>, s5: seq<SceneObject>,
                        o: ObjectId, a: ObjectId, b: nat)
    requires o < |s0| && a < |s0| && o != a
    requires |s1| == |s0| && forall i :: 0 <= i < |s1| ==> s1[i] == s0[i].(selected := false)
    requires s4 == s1[o := s1[o].(selected := true)][a := s1[a].(selected := true, activeBone := Some(b))]
    requires |s5| == |s4|
    requires forall i :: 0 <= i < |s5| ==>
      s5[i] == if s4[i].selected && i != a then s4[i].(parent := ParentBone(a, b, false)) else s4[i]
    ensures ParentedTo(s0, s5, o, a, b)
  {
  }

  /**
    Position, within `ids`, of the last object that is a mesh: the last one
    `parent_to_nearest_bone` can have parented, or None when there is none.
  */
  function LastMesh(objects: seq<SceneObject>, ids: seq<ObjectId>): (p: Option<nat>)
    requires forall k :: 0 <= k < |ids| ==> ids[k] < |objects|
    ensures p.None? <==> forall k :: 0 <= k < |ids| ==> objects[ids[k]].kind != Mesh
    ensures p.Some? ==> p.value < |ids| && objects[ids[p.value]].kind == Mesh
    ensures p.Some? ==> forall k :: p.value < k < |ids| ==> objects[ids[k]].kind != Mesh
  {
    if |ids| == 0 then None
    else if objects[ids[|ids| - 1]].kind == Mesh then Some(|ids| - 1)
    else LastMesh(objects, ids[..|ids| - 1])
  }

  /** A call of `parent_to_nearest_bone(i, arm)`, for `i` in `done`, parented `i`. */
  ghost predicate Parents(before: seq<SceneObject>, arm: ObjectId, done: seq<ObjectId>, i: ObjectId)
    requires arm < |before| && i < |before|
  {
    i in done && before[i].kind == Mesh && |before[arm].bones| > 0
  }

  /** No field the add-on never writes has changed. */
  ghost predicate GeometryKept(before: seq<SceneObject>, after: seq<SceneObject>) {
    && |after| == |before|
    && forall i :: 0 <= i < |before| ==> SameGeometry(after[i], before[i])
  }

  /** The objects of `done` that were parented have their nearest bone as parent; no other link changed. */
  ghost predicate ParentsProcessed(before: seq<SceneObject>, arm: ObjectId, done: seq<ObjectId>, after: seq<SceneObject>)
    requires arm < |before| && |after| == |before|
  {
    forall i :: 0 <= i < |before| ==>
      after[i].parent == if Parents(before, arm, done, i)
                         then ParentBone(arm, ChosenBone(before, i, arm).value, false)
                         else before[i].parent
  }

  /**
    The selection and the active bone are those left by the last mesh of
    `done` to be parented; when none was, nothing at all has changed.
  */
  ghost predicate SelectionProcessed(before: seq<SceneObject>, arm: ObjectId, done: seq<ObjectId>, after: seq<SceneObject>)
    requires arm < |before| && |after| == |before|
    requires forall k :: 0 <= k < |done| ==> done[k] < |before|
  {
    if |before[arm].bones| > 0 && LastMesh(before, done).Some? then
      var last := done[LastMesh(before, done).value];
      && (forall i :: 0 <= i < |before| ==> after[i].selected == (i == last || i == arm))
      && after[arm].activeBone == ChosenBone(before, last, arm)
      && (forall i :: 0 <= i < |before| && i != arm ==> after[i].activeBone == before[i].activeBone)
    else
      after == before
  }

  /**
    `after` is the scene contents once `parent_to_nearest_bone(obj, arm)` has
    run on every `obj` of `done`, in order, starting from `before`: every
    mesh among them is parented to its nearest bone (when the armature has
    bones), nothing else is re-parented, and the selection and the active
    bone are those left by the last mesh parented.  With nothing parented the
    contents are unchanged.
  */
  ghost predicate ProcessedInOrder(before: seq<SceneObject>, arm: ObjectId, done: seq<ObjectId>, after: seq<SceneObject>)
    requires arm < |before|
    requires forall k :: 0 <= k < |done| ==> done[k] < |before|
  {
    && GeometryKept(before, after)
    && ParentsProcessed(before, arm, done, after)
    && SelectionProcessed(before, arm, done, after)
  }

  /**
    One more call of `parent_to_nearest_bone(obj, arm)` extends
    ProcessedInOrder by `obj`: the call either parents `obj` (a mesh, with
    bones to choose from) or changes nothing.
  */
  lemma ProcessStep(before: seq<SceneObject>, arm: ObjectId, sel: seq<ObjectId>, k: nat,
                    mid: seq<SceneObject>, after: seq<SceneObject>, outcome: Outcome)
    requires arm < |before| && k < |sel|
    requires forall j :: 0 <= j < |sel| ==> sel[j] < |before|
    requires ProcessedInOrder(before, arm, sel[..k], mid)
    requires outcome.Parented? <==> mid[sel[k]].kind == Mesh && |mid[arm].bones| > 0
    requires outcome.Parented? ==>
      Some(outcome.bone) == ChosenBone(mid, sel[k], arm) && ParentedTo(mid, after, sel[k], arm, outcome.bone)
    requires !outcome.Parented? ==> after == mid
    ensures ProcessedInOrder(before, arm, sel[..k + 1], after)
  {
    var done, obj := sel[..k], sel[k];
    assert sel[..k + 1] == done + [obj];
    assert SameGeometry(mid[obj], before[obj]) && SameGeometry(mid[arm], before[arm]);
    if outcome.Parented? {
      assert ChosenBone(mid, obj, arm) == ChosenBone(before, obj, arm);
      StepParents(before, arm, done, obj, mid, after);
      StepSelection(before, arm, done, obj, mid, after);
    } else {
      StepUnchanged(before, arm, done, obj, mid);
    }
  }

  /** A call that changes nothing (`obj` is no mesh, or there are no bones) keeps ProcessedInOrder. */
  lemma StepUnchanged(before: seq<SceneObject>, arm: ObjectId, done: seq<ObjectId>, obj: ObjectId, mid: seq<SceneObject>)
    requires arm < |before| && obj < |before|
    requires forall k :: 0 <= k < |done| ==> done[k] < |before|
    requires ProcessedInOrder(before, arm, done, mid)
    requires before[obj].kind != Mesh || |before[arm].bones| == 0
    ensures ProcessedInOrder(before, arm, done + [obj], mid)
  {
  }

  /** Parent links after a call that parents `obj` to its nearest bone. */
  lemma StepParents(before: seq<SceneObject>, arm: ObjectId, done: seq<ObjectId>, obj: ObjectId,
                    mid: seq<SceneObject>, after: seq<SceneObject>)
    requires arm < |before| && obj < |before|
    requires GeometryKept(before, mid) && ParentsProcessed(before, arm, done, mid)
    requires before[obj].kind == Mesh && |before[arm].bones| > 0
    requires ParentedTo(mid, after, obj, arm, ChosenBone(before, obj, arm).value)
    ensures ParentsProcessed(before, arm, done + [obj], after)
  {
  }

  /** Selection and active bone after a call that parents `obj` to its nearest bone. */
  lemma StepSelection(before: seq<SceneObject>, arm: ObjectId, done: seq<ObjectId>, obj: ObjectId,
                      mid: seq<SceneObject>, after: seq<SceneObject>)
    requires arm < |before| && obj < |before|
    requires forall k :: 0 <= k < |done| ==> done[k] < |before|
    requires GeometryKept(before, mid) && SelectionProcessed(before, arm, done, mid)
    requires before[obj].kind == Mesh && |before[arm].bones| > 0
    requires ParentedTo(mid, after, obj, arm, ChosenBone(before, obj, arm).value)
    ensures GeometryKept(before, after)
    ensures SelectionProcessed(before, arm, done + [obj], after)
  {
  }

  /**
    The parent links after the operator: each selected mesh is a child of its
    nearest bone of `arm` (when `arm` has bones); every other link is as before.
  */
  ghost predicate ParentsAfterExecute(before: seq<SceneObject>, arm: ObjectId, after: seq<SceneObject>)
    requires arm < |before| && |after| == |before|
  {
    forall i :: 0 <= i < |before| ==>
      after[i].parent ==
        if before[i].selected && before[i].kind == Mesh && |before[arm].bones| > 0
        then ParentBone(arm, ChosenBone(before, i, arm).value, false)
        else before[i].parent
  }

  /** Processing the whole selection leaves the parent links of ParentsAfterExecute. */
  lemma ParentsAfterAll(before: seq<SceneObject>, arm: ObjectId, after: seq<SceneObject>)
    requires arm < |before|
    requires ProcessedInOrder(before, arm, SelectedIds(before), after)
    ensures |after| == |before| && ParentsAfterExecute(before, arm, after)
  {
  }

  /** The operator's guard: something is selected and the active object is an armature. */
  predicate CanExecute(objects: seq<SceneObject>, active: Option<ObjectId>) {
    && |SelectedIds(objects)| > 0
    && active.Some?
    && active.value < |objects|
    && objects[active.value].kind == Armature
  }

  /**
    `OBJECT_OT_ParentToNearestBone.execute`: cancels without touching the
    scene unless something is selected and the active object is an
    armature; otherwise runs `parent_to_nearest_bone` on each selected
    object, in order, against the active armature, and finishes.
  */
  method Execute(scene: Scene) returns (status: Status)
    requires scene.Valid()
    modifies scene
    ensures scene.Valid()
    ensures status == Cancelled <==> !CanExecute(old(scene.objects), old(scene.active))
    ensures status == Cancelled ==> scene.objects == old(scene.objects) && scene.active == old(scene.active)
    ensures status == Finished ==>
      && scene.active == old(scene.active)
      && ProcessedInOrder(old(scene.objects), old(scene.active).value, SelectedIds(old(scene.objects)), scene.objects)
    ensures status == Finished ==>
      ParentsAfterExecute(old(scene.objects), old(scene.active).value, scene.objects)
  {
    var selectedObjects := SelectedIds(scene.objects);
    var activeArmature := scene.active;

    if |selectedObjects| == 0 || activeArmature.None? || scene.objects[activeArmature.value].kind != Armature {
      return Cancelled;
    }

    ghost var before := scene.objects;
    var arm := activeArmature.value;
    for k := 0 to |selectedObjects|
      invariant scene.Valid() && scene.active == activeArmature
      invariant ProcessedInOrder(before, arm, selectedObjects[..k], scene.objects)
    {
      var obj := selectedObjects[k];
      ghost var mid := scene.objects;
      var outcome := ParentToNearestBone(scene, Some(obj), activeArmature);
      ProcessStep(before, arm, selectedObjects, k, mid, scene.objects, outcome);
    }
    assert selectedObjects[..|selectedObjects|] == selectedObjects;
    ParentsAfterAll(before, arm, scene.objects);
    return Finished;
  }
}
