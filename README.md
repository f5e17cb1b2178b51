# Parent to Nearest Bone — a verified model

This project models the Blender add-on "Parent to Nearest Bone". The add-on
parents each selected mesh object to the nearest bone of the active
armature. A bone's score is the larger of two distances: from the object's
`location` to the bone's world-space head, and to its world-space tail.
The add-on scans the pose bones once, keeps the first bone with the
smallest score, and then drives Blender's operators. It deselects
everything, selects the object and the armature, makes the armature active
and sets its active bone. Then it calls `parent_set(type='BONE',
keep_transform=False)`.

The model has five modules:

- `Wrappers` (wrappers.dfy): `Option`.
- `Geometry` (geometry.dfy): points, the affine world transform, and
  squared distance over exact reals. It proves that comparing squares of
  non-negative lengths orders them the same way as comparing the lengths.
- `NearestBone` (nearest_bone.dfy): the score, the scan as a method with a
  running minimum, and `FirstMin`, an independent reference definition of
  "first position of a minimum".
- `BlenderScene` (scene.dfy): the class `Scene`, which holds the
  view layer's objects (kind, location, world transform, pose bones,
  active bone, selection flag, parent link) and the active object. The host
  operators the add-on calls are methods of this class.
- `ParentToNearestBoneAddon` (addon.dfy): `parent_to_nearest_bone` and the
  operator's `execute`.

Scores are squared distances. `NearestBone.LengthScanAgrees` proves that the
first minimum of the unsquared max-of-lengths scores is the bone chosen on the
squared scores. The initial
`float('inf')` is the absent minimum `None`.

The object's position is read from `obj.location` (line 35). That is the
object's own location property, not its world-space position, and the two
differ for an object that has a parent. The model uses `location`, as the
code does.

## Model

| member | source | states |
|---|---|---|
| Geometry.DistSq | parent_to_nearest_bone_addon.py:43 | The squared length of `obj_location - loc` is non-negative and is zero exactly when the two points coincide. |
| Geometry.Max | parent_to_nearest_bone_addon.py:43 | `max` of two scores is at least each of them and equal to one of them. |
| Geometry.SquareOrder | parent_to_nearest_bone_addon.py:43-45 | For non-negative lengths, `a < b` holds exactly when `a*a < b*b`, so squared distances compare like the lengths the code compares. |
| Geometry.SquareOfMax | parent_to_nearest_bone_addon.py:43 | The square of the larger of two lengths is the larger of their squares. |
| Geometry.MaxOfLengthsOrder | parent_to_nearest_bone_addon.py:43-45 | The comparison `distance < min_distance` of two max-of-lengths scores gives the same answer on the squared scores. |
| Geometry.Apply | parent_to_nearest_bone_addon.py:41-42 | `matrix_world @ p` sends the armature's origin to the matrix's translation, and a matrix with identity linear part moves every point by its translation. |
| NearestBone.Score | parent_to_nearest_bone_addon.py:41-43 | A bone's score is at least the squared distance from the object's location to its world-space tail and to its world-space head, and equals one of the two (LengthScanAgrees links it to the unsquared lengths). |
| NearestBone.FirstMin | parent_to_nearest_bone_addon.py:40-47 | The choice is None exactly for no scores; otherwise its score is at most every score and strictly below every earlier one (first wins a tie). |
| NearestBone.FirstMinUnique | parent_to_nearest_bone_addon.py:45-47 | Only one position is the first minimum, so the chosen bone is fully determined by the scores (determinism). |
| NearestBone.FirstMinOrderInvariant | parent_to_nearest_bone_addon.py:43-47 | Two score sequences that compare alike pair by pair lead to the same choice. |
| NearestBone.NearestBoneIndex | parent_to_nearest_bone_addon.py:40-47 | The chosen bone is None exactly when the armature has no pose bones; otherwise its max-of-head-and-tail score is minimal and strictly below that of every earlier bone. |
| NearestBone.LengthScanAgrees | parent_to_nearest_bone_addon.py:40-47 | The first minimum of the unsquared scores `max(tail length, head length)` is the bone chosen on the squared scores. |
| NearestBone.FindNearestBone | parent_to_nearest_bone_addon.py:36-47 | The running-minimum loop with strict `<` returns None exactly for no bones, otherwise a minimal-score bone that is the first such bone; the result equals NearestBoneIndex. |
| NearestBone.TwoBoneExample | parent_to_nearest_bone_addon.py:40-47 | Bone A (0,0,0)-(0,0,1) is chosen over bone B (0,0,2)-(0,0,3) for an object at (0,0,0.4) under the identity transform. |
| BlenderScene.SelectedIds | parent_to_nearest_bone_addon.py:73 | `selected_objects` lists every selected object and only those, once each, in view-layer order. |
| BlenderScene.Scene.DeselectAll | parent_to_nearest_bone_addon.py:51 | Every object is deselected; nothing else changes. |
| BlenderScene.Scene.SelectSet | parent_to_nearest_bone_addon.py:52-53 | Only the given object's selection flag changes, to the given state. |
| BlenderScene.Scene.MakeActive | parent_to_nearest_bone_addon.py:54 | The given object becomes the active object; the objects are unchanged. |
| BlenderScene.Scene.SetActiveBone | parent_to_nearest_bone_addon.py:57 | The given armature object's active bone becomes the given bone; no other object's record changes (armature data is per object here, see Left out). |
| BlenderScene.Scene.ParentSet | parent_to_nearest_bone_addon.py:60 | With an active armature that has an active bone, every selected object other than the active one gets that bone as parent with the given keep-transform flag; otherwise nothing changes. |
| ParentToNearestBoneAddon.ParentToNearestBone | parent_to_nearest_bone_addon.py:18-63 | A missing object or armature, a non-mesh object, a non-armature armature and an armature without bones each give their own outcome, decided before any change, and leave the scene unchanged. Otherwise the chosen bone is NearestBoneIndex's. Exactly the object and the armature end selected, the armature is active, its active bone is the chosen bone, and the object is parented to that bone with keep_transform false. No other object's parent changes. |
| ParentToNearestBoneAddon.LastMesh | parent_to_nearest_bone_addon.py:82-83 | Gives the position of the last mesh in a list of objects, or None exactly when the list holds no mesh. |
| ParentToNearestBoneAddon.HostCallsParent | parent_to_nearest_bone_addon.py:51-60 | Deselecting all, selecting the object and the armature, setting the active bone and calling `parent_set` leaves exactly those two objects selected. It parents the object, and only it, to the bone without keeping its transform, and sets the armature object's active bone; no other object's record changes (armature data is per object, see Left out). |
| ParentToNearestBoneAddon.ProcessStep | parent_to_nearest_bone_addon.py:82-83 | One more call of `parent_to_nearest_bone` on the next selected object extends the processed prefix by that object. |
| ParentToNearestBoneAddon.StepUnchanged | parent_to_nearest_bone_addon.py:25-27 | A selected object that is not a mesh (the armature among them) is skipped, and so is every object when the armature has no bones; the processed state is kept. |
| ParentToNearestBoneAddon.StepParents | parent_to_nearest_bone_addon.py:60 | After a successful call, the new object's parent is its nearest bone and every other parent link is as the earlier calls left it. |
| ParentToNearestBoneAddon.StepSelection | parent_to_nearest_bone_addon.py:51-57 | After a successful call, the selection and the armature's active bone are those of the object just parented, whatever earlier calls selected. |
| ParentToNearestBoneAddon.ParentsAfterAll | parent_to_nearest_bone_addon.py:82-83 | Once every selected object has been processed, each selected mesh is parented to its nearest bone (when the armature has bones) and every other parent link is unchanged. |
| ParentToNearestBoneAddon.Execute | parent_to_nearest_bone_addon.py:71-85 | Returns CANCELLED, with the scene untouched, exactly when nothing is selected, there is no active object or the active object is not an armature. Otherwise returns FINISHED with the active object kept. Each selected mesh is then parented to its nearest bone of the active armature, provided the armature has bones; the armature itself is skipped. No other parent changes. The selection and active bone are those left by the last mesh parented; with none parented the scene is unchanged. |

## Left out

- Add-on metadata, the menu entry and registration (`bl_info`, `menu_func`, `register`, `unregister`): host UI plumbing with no behaviour to state.
- Floating point: `float('inf')`, rounding and NaN are not modelled. Coordinates are exact reals and the sentinel is an absent minimum.
- `Vector.length`'s square root: scores are squared distances. LengthScanAgrees states the link to unsquared lengths for any lengths whose squares are the squared distances.
- `mathutils` matrices: `matrix_world` is an affine map (3x3 linear part and a translation). The projective row of a 4x4 matrix is not modelled.
- How `parent_set` recomputes the child's transform (parent inverse matrix, keep-transform handling) and its refusal to create parent loops. The model records only the new parent bone and the keep-transform flag; the child's `location` is unchanged.
- Hidden or unselectable objects, which `select_all` and `selected_objects` treat specially. Every object of the view layer is selectable here.
- The text of `print` and `self.report` messages; each message is an Outcome or a Cancelled status.
- BlenderScene.Scene.SetActiveBone: the Armature data-block that linked duplicates share is not modelled. The active bone is kept on each armature object, so the model does not show that every object using the same armature data also gets the new active bone.
- Object identity: objects are positions in the view layer and bones are positions in the armature's pose bones. A pose bone and its data bone (`nearest_bone.bone`) share a position.
