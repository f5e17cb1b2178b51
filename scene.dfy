/**
  The part of Blender's scene state that the add-on reads and writes: the
  view layer's objects with their selection flags and parent links, the
  active object, and each armature's pose bones and active bone.  Objects
  are identified by their position in the view layer, which is also the
  order in which `context.selected_objects` lists them.

  The host operators the add-on calls (`select_all`, `select_set`, setting
  the active object and the active bone, `parent_set`) are methods of
  class Scene that state the change each one makes.
*/
module BlenderScene {
  import opened Wrappers
  import opened Geometry
  import opened NearestBone

  type ObjectId = nat

  /** The object's `type` string, reduced to the values the add-on tests. */
  datatype Kind = Mesh | Armature | OtherKind

  /** An object's parent link. */
  datatype Parent =
    | NoParent
    | ParentObject(target: ObjectId)
    | ParentBone(armature: ObjectId, bone: nat, keepTransform: bool)

  /**
    One object of the view layer.  `bones` (the pose bones) and `activeBone`
    (`data.bones.active`, an index into `bones`) mean something only for
    armatures.
  */
  datatype SceneObject = SceneObject(
    kind: Kind,
    location: Vec3,
    matrixWorld: Affine,
    bones: seq<Bone>,
    activeBone: Option<nat>,
    selected: bool,
    parent: Parent)

  /** The fields the add-on never writes are equal. */
  predicate SameGeometry(a: SceneObject, b: SceneObject) {
    a.kind == b.kind && a.location == b.location && a.matrixWorld == b.matrixWorld && a.bones == b.bones
  }

  /** `context.selected_objects`: the selected objects, in view-layer order. */
  function SelectedIds(objects: seq<SceneObject>): (ids: seq<ObjectId>)
    ensures forall k :: 0 <= k < |ids| ==> ids[k] < |objects| && objects[ids[k]].selected
    ensures forall i :: 0 <= i < |objects| && objects[i].selected ==> i in ids
    ensures forall k, l :: 0 <= k < l < |ids| ==> ids[k] < ids[l]
  {
    if |objects| == 0 then
      []
    else
      var n := |objects| - 1;
      SelectedIds(objects[..n]) + if objects[n].selected then [n] else []
  }

  /** `parent_set(type='BONE')` has an active armature with a valid active bone to parent to. */
  predicate CanParentToBone(objects: seq<SceneObject>, active: Option<ObjectId>) {
    && active.Some?
    && active.value < |objects|
    && objects[active.value].kind == Armature
    && objects[active.value].activeBone.Some?
    && objects[active.value].activeBone.value < |objects[active.value].bones|
  }

  class Scene {
    var objects: seq<SceneObject>
    var active: Option<ObjectId>

    ghost predicate Valid()
      reads this
    {
      active.Some? ==> active.value < |objects|
    }

    constructor (objects: seq<SceneObject>, active: Option<ObjectId>)
      requires active.Some? ==> active.value < |objects|
      ensures Valid()
      ensures this.objects == objects && this.active == active
    {
      this.objects := objects;
      this.active := active;
    }

    /** `bpy.ops.object.select_all(action='DESELECT')`. */
    method DeselectAll()
      requires Valid()
      modifies this
      ensures Valid() && active == old(active) && |objects| == |old(objects)|
      ensures forall i :: 0 <= i < |objects| ==> objects[i] == old(objects)[i].(selected := false)
    {
      var objs := objects;
      objects := seq(|objs|, i requires 0 <= i < |objs| => objs[i].(selected := false));
    }

    /** `obj.select_set(state)`. */
    method SelectSet(id: ObjectId, state: bool)
      requires Valid() && id < |objects|
      modifies this
      ensures Valid() && active == old(active)
      ensures objects == old(objects)[id := old(objects)[id].(selected := state)]
    {
      objects := objects[id := objects[id].(selected := state)];
    }

    /** `context.view_layer.objects.active = obj`. */
    method MakeActive(id: ObjectId)
      requires id < |objects|
      modifies this
      ensures Valid() && objects == old(objects)
      ensures active == Some(id)
    {
      active := Some(id);
    }

    /** `armature.data.bones.active = bone`, for the bone at index `bone` of the armature's pose bones. */
    method SetActiveBone(armature: ObjectId, bone: nat)
      requires Valid() && armature < |objects|
      modifies this
      ensures Valid() && active == old(active)
      ensures objects == old(objects)[armature := old(objects)[armature].(activeBone := Some(bone))]
    {
      objects := objects[armature := objects[armature].(activeBone := Some(bone))];
    }

    /**
      `bpy.ops.object.parent_set(type='BONE', keep_transform=keepTransform)`:
      every selected object other than the active one becomes a child of the
      active armature's active bone.  Without such a bone the operator does
      nothing and reports `false`.
    */
    method ParentSet(keepTransform: bool) returns (done: bool)
      requires Valid()
      modifies this
      ensures Valid() && active == old(active) && |objects| == |old(objects)|
      ensures done <==> CanParentToBone(old(objects), old(active))
      ensures forall i :: 0 <= i < |objects| ==>
        objects[i] == if done && old(objects)[i].selected && Some(i) != active
                      then old(objects)[i].(parent := ParentBone(active.value, old(objects)[active.value].activeBone.value, keepTransform))
                      else old(objects)[i]
    {
      done := CanParentToBone(objects, active);
      if done {
        var a := active.value;
        var bone := objects[a].activeBone.value;
        var objs := objects;
        objects := seq(|objs|, i requires 0 <= i < |objs| =>
          if objs[i].selected && i != a then objs[i].(parent := ParentBone(a, bone, keepTransform)) else objs[i]);
      }
    }
  }
}
