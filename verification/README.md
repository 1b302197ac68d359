# CharacterMove, modelled in Dafny

A model of `CharacterMove`, the Unity component that moves, dashes and
turns a 2D character. The component has four parts, all modelled with the
engine's services as parameters.

- **Move resolution (`MoveTo`).** A frame's move `moveDir * moveSpeed * deltaTime` is first checked with a swept-circle cast. If the cast hits something other than the character itself and wall sliding is allowed, the resolver tries the move with its x component dropped, then with its y component dropped. It reports whether it moved and how far (`moveAdd`).
- **Collider filters (`RaycastCircle`, `OverlapCircle`).** Each returns the first collider in the engine's hit list that does not belong to the character itself, or null.
- **The dash (`RushTo`, `RushIEnumerator`, `StopRush`, `IsRush`).** A coroutine moves the character once per frame, without sliding, while the moves succeed and the total stays short of the requested distance. It then fires the optional callback and calls `StopRush`.
- **Rotation bookkeeping (`StopRotate`, `InvokeRotate`, `SmoothRotate`, `Update`).** An immediate turn, a smooth turn that `Update` advances each frame with `Quaternion.Lerp`, and a stop.

The modules follow that split:

- `Search` has the first-match search that both filters and the sliding fallback share.
- `Vectors` has `Vector3`/`Vector2` as exact real records.
- `Physics` has the engine record and the two filters.
- `Movement` has `MoveTo`.
- `Rush` has the dash as an explicit per-frame state machine.
- `DashScenario` has the dash in a world without obstacles.
- `Rotation` has the rotation state.

The engine enters as values:

- `Physics.Engine` carries:
  - the character's own game object;
  - `Physics2D.CircleCastAll` and `Physics2D.OverlapCircleAll` as functions;
  - `Vector3.magnitude` as a `Norm`, a function known only to be non-negative and zero on the zero vector.
- `Rotation.QuatEngine` carries `Quaternion.LookRotation`, `Quaternion.AngleAxis` and the unclamped interpolation, over an arbitrary rotation type.
- `Time.deltaTime` is a parameter of every per-frame operation.

`MoveTo` returns a `Move` record. It holds the boolean result, `moveAdd`, every value assigned to the position in order, and every sweep made in order. This lets the model state properties such as "the position is never written" and "the horizontal attempt is never made".

The dash coroutine is a value: `RushTask` holds its locals at the `yield`. `Resume` is one resumption by the host. `Body` holds the component's fields, including `m_rushCoroutine` and the set of coroutines `StopCoroutine` has been called on.

## Behaviours of the code worth noting

- **A zero-length move can fail.** `MoveTo` with `moveSpeed * deltaTime == 0` does not always succeed. A cast of distance 0 still reports colliders that already overlap the circle. So the result is true exactly when that zero-length sweep is clear. In every case nothing moves and `moveAdd` is 0 (`MoveToZeroStep`).
- **`moveAdd` is always the distance actually moved, also for the horizontal slide.** Each attempt sets the position to `oldLocalPos + vMove`; it does not add to the tentative position. So the reported distance is always the magnitude of the final displacement (`MoveTo`, second ensures).
- **The first dash move happens inside `RushTo`.** `StartCoroutine` runs the coroutine up to its first `yield` before returning. The callback fires on the resumption after the last move.

## Model

| member | source | states |
|---|---|---|
| Search.FirstWhere | VFramework/Assets/Scripts/Character/CharacterMove.cs:230-237 | the index found satisfies the test and every earlier element fails it; there is no index exactly when every element fails |
| Physics.RaycastCircle | VFramework/Assets/Scripts/Character/CharacterMove.cs:224-238 | the collider returned is not the character's own and is the first such in the cast's hit list; null exactly when every hit is the character's own (including no hits) |
| Physics.OverlapCircle | VFramework/Assets/Scripts/Character/CharacterMove.cs:247-258 | the same for the overlap query: first collider not the character's own, null exactly when there is none |
| Movement.BlockedIffRaycastCircleHits | VFramework/Assets/Scripts/Character/CharacterMove.cs:173-174 | a sweep counts as blocked exactly when RaycastCircle returns a collider |
| Movement.SlideAllowed | VFramework/Assets/Scripts/Character/CharacterMove.cs:176 | sliding is tried exactly when smoothWall is on and the blocked move has a non-zero x and a non-zero y component |
| Movement.MoveTo | VFramework/Assets/Scripts/Character/CharacterMove.cs:166-213 | moveAdd is non-negative and equals the magnitude of the net displacement; on failure moveAdd is 0 and the position ends where it started; 1 to 3 sweeps, the first along the requested direction, all from the pre-move position, all but the last blocked, the last deciding the result; on success the position moves by the last sweep's direction times speed times dt; more than one sweep only when sliding is allowed |
| Movement.MoveToIsFirstClearCandidate | VFramework/Assets/Scripts/Character/CharacterMove.cs:173-212 | MoveTo makes the first move, among the requested direction and (when sliding is allowed) its x-zeroed and y-zeroed parts, whose sweep is clear; it sweeps exactly the candidates up to that one; if none is clear it fails and stays put |
| Movement.MoveToClearPath | VFramework/Assets/Scripts/Character/CharacterMove.cs:168-212 | a clear direct sweep gives true, the full move, moveAdd equal to its magnitude, and a single sweep |
| Movement.MoveToBlockedWithoutSlide | VFramework/Assets/Scripts/Character/CharacterMove.cs:173-180 | a blocked direct sweep with smoothWall off or a zero x or y component gives false, moveAdd 0, no write to the position and no further sweep |
| Movement.MoveToAllBlocked | VFramework/Assets/Scripts/Character/CharacterMove.cs:184-203 | when the direct, x-zeroed and y-zeroed sweeps are all blocked, the result is false, moveAdd is 0 and the position ends where it started |
| Movement.MoveToSlidesVertically | VFramework/Assets/Scripts/Character/CharacterMove.cs:184-212 | a successful x-zeroed slide keeps x, moves by the vertical part, reports its magnitude, and never sweeps the horizontal part |
| Movement.MoveToSlidesHorizontally | VFramework/Assets/Scripts/Character/CharacterMove.cs:190-212 | a success after three sweeps happens only when the direct and x-zeroed sweeps were blocked and sliding was allowed; y is kept and the horizontal part's magnitude is reported |
| Movement.MoveToZeroStep | VFramework/Assets/Scripts/Character/CharacterMove.cs:168-212 | with speed times dt equal to 0 nothing moves and moveAdd is 0; the result is true exactly when the zero-length direct sweep is clear |
| Movement.MoveFunc | VFramework/Assets/Scripts/Character/CharacterMove.cs:124-128 | the new position is the old one, the full move, or (only when sliding is allowed) the vertical or the horizontal part of it |
| Rush.DashMove | VFramework/Assets/Scripts/Character/CharacterMove.cs:104 | one dash frame fails exactly when the direct sweep is blocked, and then reports 0 and stays put; otherwise it makes the full move and reports its magnitude |
| Rush.DashMoveIsMoveTo | VFramework/Assets/Scripts/Character/CharacterMove.cs:104 | a dash frame is MoveTo with smoothWall false: same result, same moveAdd, same final position |
| Rush.NewBody | VFramework/Assets/Scripts/Character/CharacterMove.cs:71-79 | a new component is not dashing, holds no coroutine handle, has stopped no coroutine, and satisfies Valid (every coroutine identity handed out lies below the next one) |
| Rush.IsRush | VFramework/Assets/Scripts/Character/CharacterMove.cs:72-78 | IsRush reads m_startRush: set by RushTo, cleared by StopRush and when a dash ends by itself (contracts of RushTo, StopRush and Resume) |
| Rush.Continues | VFramework/Assets/Scripts/Character/CharacterMove.cs:107 | the loop condition: the last move succeeded and the total is below the requested distance |
| Rush.StopRush | VFramework/Assets/Scripts/Character/CharacterMove.cs:81-88 | IsRush becomes false; the coroutine held in m_rushCoroutine, if any, joins the stopped ones, and nothing else is stopped; position and handle are unchanged |
| Rush.RushTo | VFramework/Assets/Scripts/Character/CharacterMove.cs:90-94 | IsRush becomes true; the handle names the new coroutine, which is fresh and not stopped; the first move is made at once from the current position without sliding, and its distance is the first total |
| Rush.Resume | VFramework/Assets/Scripts/Character/CharacterMove.cs:96-115 | a stopped coroutine does nothing; otherwise the dash goes on exactly when the last move succeeded and the total is short; going on, this frame's direct move is made, its distance is added to the total and its success becomes the new result, with no callback; ending, the callback fires if given and the component is exactly as StopRush leaves it; the handle never changes |
| Rush.RunFrames | VFramework/Assets/Scripts/Character/CharacterMove.cs:96-115 | over any frames the callback fires at most once, only when one was given and only as the dash ends with IsRush cleared; while the dash runs the total never decreases; the handle never changes, nothing stopped is restarted, and only the coroutine the handle names can become stopped |
| Rush.RunFramesSplit | VFramework/Assets/Scripts/Character/CharacterMove.cs:96-115 | running two stretches of frames one after the other is running them together, with the callback counts added |
| Rush.RunFramesCons | VFramework/Assets/Scripts/Character/CharacterMove.cs:96-115 | running frames starting with dt is one resumption followed by the remaining frames |
| Rush.RushNeverSlides | VFramework/Assets/Scripts/Character/CharacterMove.cs:96-115 | a dash whose first direct sweep is blocked does not move, and the next frame ends it: the callback fires if given and IsRush is cleared |
| Rush.StopRushIsSilent | VFramework/Assets/Scripts/Character/CharacterMove.cs:81-88 | after StopRush the coroutine held in the handle is never resumed: no callback, no further move |
| Rush.RushOvershootBounded | VFramework/Assets/Scripts/Character/CharacterMove.cs:102-107 | while the dash runs, its total stays below the requested distance plus the largest single-frame move |
| Rush.BlockedFrameEndsDash | VFramework/Assets/Scripts/Character/CharacterMove.cs:102-114 | on any frame of a running dash, a blocked direct sweep leaves the character in place and the total unchanged, and the next resumption fires the callback if given and leaves the component as StopRush does |
| Rush.SecondRushTakesHandle | VFramework/Assets/Scripts/Character/CharacterMove.cs:90-94 | a second RushTo while a dash runs makes the handle name the new coroutine and leaves the first one running; frames of the second dash change neither fact |
| Rush.OverlappingRushEndsTheNewer | VFramework/Assets/Scripts/Character/CharacterMove.cs:81-115 | whenever a dash ends by itself while the handle names another coroutine, its own callback fires, IsRush is cleared and the other coroutine is stopped: it never moves again and never fires its callback |
| DashScenario.OpenFieldRushTo | VFramework/Assets/Scripts/Character/CharacterMove.cs:90-105 | with no obstacle, RushTo makes the full first move and starts a successful dash |
| DashScenario.OpenFieldResume | VFramework/Assets/Scripts/Character/CharacterMove.cs:102-107 | with no obstacle, each frame of a running dash makes the full move and adds its magnitude to the total |
| DashScenario.OpenFieldDashFrames | VFramework/Assets/Scripts/Character/CharacterMove.cs:102-107 | with no obstacle and the total still short, n equal frames move the character n full steps, add n step lengths to the total, and fire no callback |
| DashScenario.OpenFieldDashEnds | VFramework/Assets/Scripts/Character/CharacterMove.cs:102-114 | with no obstacle, once the total reaches the distance after n steps, the next frame ends the dash: the callback fires once if given, IsRush is cleared, and the character stands n steps further on |
| Rotation.NewRotator | VFramework/Assets/Scripts/Character/CharacterMove.cs:40-42 | a new component is not rotating and has rotation speed 5 |
| Rotation.Clamp01 | VFramework/Assets/Scripts/Character/CharacterMove.cs:136 | the interpolation parameter passed on lies in [0, 1]; it is the input when that is in range, 0 below and 1 above |
| Rotation.Lerp | VFramework/Assets/Scripts/Character/CharacterMove.cs:136 | Quaternion.Lerp interpolates with the parameter clamped: for a parameter in [0, 1] it is the unclamped interpolation; at or beyond either end it gives that end's interpolation |
| Rotation.StopRotate | VFramework/Assets/Scripts/Character/CharacterMove.cs:17-20 | the rotate flag is cleared; the rotation, speed and target are untouched |
| Rotation.InvokeRotateToDirection | VFramework/Assets/Scripts/Character/CharacterMove.cs:26-29 | the rotation becomes the one facing the direction; the smooth-rotation flag, speed and target are untouched |
| Rotation.InvokeRotateToAngle | VFramework/Assets/Scripts/Character/CharacterMove.cs:35-38 | the rotation becomes the one for the angle; the smooth-rotation flag, speed and target are untouched |
| Rotation.SmoothRotateToDirection | VFramework/Assets/Scripts/Character/CharacterMove.cs:48-54 | the flag is set, the speed and the target for the direction are recorded, and the rotation does not change yet |
| Rotation.SmoothRotateToAngle | VFramework/Assets/Scripts/Character/CharacterMove.cs:60-66 | the flag is set, the speed and the target for the angle are recorded, and the rotation does not change yet |
| Rotation.Update | VFramework/Assets/Scripts/Character/CharacterMove.cs:132-138 | when not rotating nothing changes; when rotating only the rotation changes, to the clamped interpolation from it towards the target by dt times the speed; the flag is never cleared |
| Rotation.UpdateFrames | VFramework/Assets/Scripts/Character/CharacterMove.cs:132-138 | over any frames, a non-rotating state is unchanged and the flag, speed and target are kept |
| Rotation.StopRotateFreezes | VFramework/Assets/Scripts/Character/CharacterMove.cs:17-20 | after StopRotate no number of frames changes the state; the rotation stays where it was |
| Rotation.SmoothRotateThenUpdate | VFramework/Assets/Scripts/Character/CharacterMove.cs:48-54 | SmoothRotate towards a direction followed by one frame interpolates from the old rotation towards the new target by the clamped fraction, and keeps rotating |
| Rotation.SmoothRotateToAngleThenUpdate | VFramework/Assets/Scripts/Character/CharacterMove.cs:60-66 | the same for the angle overload |
| Rotation.SmoothRotateOverrides | VFramework/Assets/Scripts/Character/CharacterMove.cs:48-66 | a second SmoothRotate replaces the first outright: the earlier target and speed leave no trace |
| Rotation.UpdateSnapsToTarget | VFramework/Assets/Scripts/Character/CharacterMove.cs:132-138 | a frame with dt times speed at least 1 lands exactly on the target, given an interpolation that reaches its end point |
| Rotation.StaysAtTarget | VFramework/Assets/Scripts/Character/CharacterMove.cs:132-138 | once the rotation equals the target it stays there for any frames, and the flag stays set, given that interpolating between the target and itself gives the target |
| Rotation.InvokeDuringSmoothRotate | VFramework/Assets/Scripts/Character/CharacterMove.cs:26-29 | InvokeRotate during a smooth rotation does not cancel it: the next frame turns from the invoked rotation towards the old target |

## Left out

- Unity physics: `Physics2D.CircleCastAll` and `Physics2D.OverlapCircleAll` are functions carried by `Engine`, with no geometric properties assumed. Of a cast hit only its collider is modelled, and a collider is reduced to an identity and its game object.
- `Vector3.magnitude` is any function that is non-negative and zero on the zero vector, since Dafny has no square root. Properties that need more of the Euclidean norm are not stated.
- Floating point: coordinates, speeds and frame lengths are exact reals. `moveDir * moveSpeed * deltaTime` is modelled as `moveDir * (moveSpeed * deltaTime)`, which is the same value over the reals but not always in single precision.
- The transform is taken to have no parent, so `localPosition` and `position` are one value. With a parent, the writes at lines 187, 195, 200 and 210 would move the character by a scaled or rotated offset.
- The cast works in the xy-plane: the z component of the origin and the direction is dropped (`Flatten`). The displacement keeps its z component.
- Coroutine scheduling: `StartCoroutine`, `StopCoroutine` and `yield return null` become the explicit `Resume` step and the `stopped` set. The host's loop is `RunFrames` over a given list of frame lengths. Termination of the dash is not claimed: with a zero step it may go on for ever.
- The dash callback is reduced to whether one was given. What it does when it fires is outside the model, including a callback that calls back into the component.
- One `Engine` value serves every frame of a dash, so the obstacles a cast can hit are the same on every frame. Moving obstacles would need an engine per frame.
- `RunFrames` runs frames of the dash with nothing else touching the component in between. A game calling MoveFunc, RushTo or StopRush between frames is modelled only by composing the single-step operations (`Resume`, `RushTo`, `StopRush`) by hand, as `OverlappingRushEndsTheNewer` does.
- `m_rushCoroutine` is never reset to null by the source, and the model keeps it that way. The coroutine handle is a natural-number identity.
- Quaternion mathematics: `Quaternion.LookRotation`, `Quaternion.AngleAxis` and the unclamped interpolation are functions carried by `QuatEngine`. `GetQuaternion` (lines 265-274) is `FromDirection` and `FromAngle`. They only forward `Vector3.forward` with `-dir`, or `angle * Mathf.Rad2Deg` with `Vector3.forward`, to the engine, so they carry no contract of their own.
- Rotation.UpdateSnapsToTarget: it assumes the interpolation law `ReachesEnd`, which Unity's normalising quaternion interpolation satisfies only up to rounding.
- Rotation.StaysAtTarget: it assumes that interpolating between the target and itself gives the target (`FixesEqualEnds`), which Unity's normalising quaternion interpolation satisfies only up to rounding.
- The default value of an unset `Quaternion` field is a parameter of `NewRotator`.
- `MoveFunc`: its contract lists only the four possible resulting positions. Which one is taken is `MoveTo`'s contract.
- The `OnGUI` debug button (lines 145-153) and the layer constant it passes are test scaffolding, not part of the component's behaviour.
