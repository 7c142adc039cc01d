# Timeline and glTF transforms, modelled in Dafny

This project models two parts of FURY.

**The keyframe-animation `Timeline`** (`fury/animation/timeline.py`) is a
single-threaded object. It holds:

- a keyframe store and an interpolator table, each with two namespaces
  (`attribs` and `camera`);
- a playback clock: playing flag, stored time, start time and speed;
- a final timestamp. With no fixed length, recomputing it gives the larger
  of its old value and `max([0] + children's final timestamps)`;
- the controlled actors, the static actors and the child timelines;
- a scene-membership window `[add, remove)`.

`update_animation` reads the clock, handles a clock that has run past the end
(loop, or pause at the end), and emits scene add/remove events only on a change
of membership. When playing or forced, it then applies the camera attributes,
then the actor attributes, then updates every child at the same time with
`force=True` and the parent's in-scene flag.

**The glTF loader's matrix helpers** (`fury-gltf/gltf/tranforms.py`):

- `translate` builds a homogeneous 4x4 translation;
- `scale` builds a homogeneous 4x4 scaling;
- `apply_transfomation` applies a 4x4 matrix to rows of vertices.

The project has three files:

- `transforms.dfy` (module `Transforms`) holds the matrix helpers. Matrices are
  sequences of rows over exact reals. `scale` is a method that writes the
  diagonal of a 4x4 array in a loop, as the source does.
- `playback.dfy` (module `Playback`) holds the value-level semantics of a
  timeline:
  - the keyframe and interpolator tables and their writes;
  - the clock and its operations;
  - the scene window;
  - a `Node` snapshot of a timeline subtree and a `Span` tree of its final
    timestamps;
  - the control flow of an update pass as the list of `Event`s it produces, and
    the state it leaves;
  - every playback operation as an `Outcome` (events, success flag, new
    subtree), with the lemmas that state what the source promises about them.
- `timeline.dfy` (module `Timelines`) holds the `Timeline` class:
  - one field per attribute the source updates;
  - ghost snapshots `Shot` and `Sp` of its subtree;
  - a `Repr` footprint, with the invariant that children own disjoint parts of
    the heap.

  The methods that run an update pass, change the clock or recompute the
  final timestamps are proved against the `Playback` function that specifies
  them. These are `UpdateAnimation`, `Play`, `Stop`, `Restart`, `Seek`,
  `SeekPercent`, `SetSpeed`, `SetKeyframe`, `SetKeyframes`, `SetRotation` and
  `AddToScene` (against their `Outcome` functions), `Pause` (`PauseClock`),
  and `UpdateFinalTimestamp` and `Resume` (`Recompute`). The other methods state
  their new fields directly: `AddActor`, `AddActors`, `AddTimeline`, `Add`,
  `AddAll`, `RemoveActor`, `RemoveActors`, `RemoveTimelines`, `SetLoop`,
  `AddToSceneAt`, `RemoveFromSceneAt` and `SetInterpolator`. Children are
  updated by calling their own methods, recursively.

Conventions:

- Wall-clock time (`time.perf_counter()`) is an explicit parameter `now`: one
  instant per call.
- Applying an interpolated value (`SetPosition`, `SetScale`, `SetViewUp`, ...)
  is an `Apply` event. It names the owner, namespace, attribute, target and
  time: the value is the channel's interpolator evaluated at that time.
- `ren.add` on a static actor is a `RendererAdd` event. `ren.add` on a child
  timeline runs the child's own `add_to_scene`, so the child's events and its
  new state are nested in the parent's.
- Joining or leaving the scene is an `EnterScene` or `LeaveScene` event.
- An operation returns `ok == false` where the source raises.

## Model

| member | source | states |
|---|---|---|
| `Transforms.Translate` | fury-gltf/gltf/tranforms.py:4-15 | succeeds exactly for 3 components or none, because numpy broadcasts the column only then. The result is 4x4, with the identity's upper-left 3x3 block, bottom-right entry 1 and the translation in the last column of the first three rows. The empty translation gives the identity. |
| `Transforms.Scale` | fury-gltf/gltf/tranforms.py:31-38 | for up to three factors, the 4x4 identity with the factors (then 1) on the diagonal. More than three factors raise an `IndexError`: with four, the appended 1 has no diagonal entry left. The loop invariant tracks the diagonal written so far. |
| `Transforms.ScaleOfOnesIsIdentity` | fury-gltf/gltf/tranforms.py:31-38 | `scale([1, 1, 1])` is the 4x4 identity |
| `Transforms.TranslateOfZeroIsIdentity` | fury-gltf/gltf/tranforms.py:4-15 | `translate([0, 0, 0])` is the 4x4 identity |
| `Transforms.Transpose` | fury-gltf/gltf/loader.py:115 | `.T`: entry (i, j) of the result is entry (j, i) of the input |
| `Transforms.IdentityTimes` | fury-gltf/gltf/loader.py:61-69 | the 4x4 identity the loader starts a node matrix from is a left unit of `np.dot`: `identity @ m == m` for every 4x4 `m` |
| `Transforms.ApplyTransformation` | fury-gltf/gltf/tranforms.py:48-56 | defined exactly when the matrix has one row more than the vertices have columns. It keeps the number of rows, and keeps the number of columns whenever the matrix is at least that wide. |
| `Transforms.ApplyEntry` | fury-gltf/gltf/tranforms.py:48-56 | each output coordinate is the vertex extended by 1, dotted with a column of the matrix |
| `Transforms.TranslateMovesVertices` | fury-gltf/gltf/tranforms.py:48-56 | applying the transpose of `translate(t)`, as the loader does, adds `t` to every vertex row |
| `Transforms.ScaleMultipliesVertices` | fury-gltf/gltf/tranforms.py:31-38 | applying the transpose of `scale(s)` multiplies each vertex coordinate by the matching factor |
| `Transforms.ComposedEntry` | fury-gltf/gltf/loader.py:68-81 | translate times scale has the factors on the diagonal, the translation in the last column, and zeros elsewhere apart from the final 1 |
| `Transforms.TranslateThenScaleComposes` | fury-gltf/gltf/loader.py:68-81 | a node matrix composed as translate times scale, applied transposed, maps each vertex `v` to `v * s + t`: scale first, then move |
| `Transforms.NodeTransform` | fury-gltf/gltf/loader.py:58-81 | the loader's chain for a node with a translation and a scale is `parent @ (identity @ translate(t) @ scale(s))`, which is `parent @ translate(t) @ scale(s)`. For a root node (identity parent), applied transposed to the vertices, it maps each vertex `v` to `v * s + t`. |
| `Playback.Spaces.Put` | fury/animation/timeline.py:163-166 | writing one namespace leaves the other as it was |
| `Playback.StoreKeyframe` | fury/animation/timeline.py:163-176 | the keyframe sits at (attribute, timestamp) and overwrites an earlier one there. Every other timestamp of the channel and every other attribute is unchanged, and the channel exists afterwards. |
| `Playback.BindOnKeyframe` | fury/animation/timeline.py:177-183 | a new channel gets a linear interpolator; an existing channel keeps its own; no other entry changes |
| `Playback.BindOnKeyframeTwice` | fury/animation/timeline.py:177-183 | binding on a second keyframe of the same channel changes nothing |
| `Playback.MakeInterpolator` | fury/animation/timeline.py:324-327 | the strategy asked for. It carries a degree exactly when the strategy is a spline and a degree was given. |
| `Playback.StoreAllNext` | fury/animation/timeline.py:216-218 | `set_keyframes` on one more entry is one more `set_keyframe` write |
| `Playback.StoreAllKeeps` | fury/animation/timeline.py:195-218 | after `set_keyframes` the attribute has a channel when any entry was given, and every other attribute is unchanged |
| `Playback.StoreAllLastWins` | fury/animation/timeline.py:195-218 | each timestamp named by the entries holds the value of the last entry that names it |
| `Playback.StoreAllUntouched` | fury/animation/timeline.py:195-218 | a timestamp no entry names keeps its keyframe, or stays absent |
| `Playback.InsideSceneAt` | fury/animation/timeline.py:241-247 | inside exactly when at or after the add time, and before the remove time when one is set |
| `Playback.SceneEventIsEdgeTriggered` | fury/animation/timeline.py:269-276 | with a scene the flag follows the argument and an event is emitted exactly on a change. A repeated call emits nothing and keeps the flag. Without a scene nothing happens. |
| `Playback.AfterRead` | fury/animation/timeline.py:1149-1162 | reading the clock does not change what it reads; when playing it stores what it read |
| `Playback.Clamp` | fury/animation/timeline.py:1197-1201 | the result lies in `[0, final]`, and a time already inside is kept |
| `Playback.SeekClock` | fury/animation/timeline.py:1188-1208 | after a seek the clock reads the clamped time at the same instant. When not playing only the stored time moves; when playing only the start time moves. |
| `Playback.SeekIdempotent` | fury/animation/timeline.py:1188-1208 | seeking twice to the same time at the same instant equals seeking once |
| `Playback.PauseClock` | fury/animation/timeline.py:1132-1135 | after `pause` the clock is stopped and reads, at any later time, what it read at the pause |
| `Playback.PlayClock` | fury/animation/timeline.py:1122-1130 | `play` leaves the clock playing at the same speed, and is a no-op while playing |
| `Playback.PlayThenRead` | fury/animation/timeline.py:1122-1130 | `d` seconds after `play`, the clock reads the resume time plus `d` times the speed. The resume time is the stored time, or 0 once the final timestamp was reached. |
| `Playback.SpeedClock` | fury/animation/timeline.py:1281-1296 | a speed that is not positive is ignored and the clock reads the same. A positive speed is adopted, and at that instant the clock reads the previous time clamped into `[0, final]`. The playing flag is kept. |
| `Playback.SetTimeClock` | fury/animation/timeline.py:128-140 | the clock reads `t` at that instant without clamping, and no update runs |
| `Playback.TickNode` | fury/animation/timeline.py:1050-1120 | an update pass changes only the scene flag (to the edge-triggered value) and the children |
| `Playback.ChildrenFollowParent` | fury/animation/timeline.py:1051-1054 | each child is updated at the parent's `t` with `force=True`. Its in-scene flag is the parent's flag and its own window. |
| `Playback.TickAppliesAt` | fury/animation/timeline.py:1056-1120 | every value an update pass applies, anywhere in the subtree, is taken at the `t` it was called with |
| `Playback.OwnEffectsAt` | fury/animation/timeline.py:1056-1117 | a timeline's own camera and actor effects are all taken at `t`, and never add to or remove from the scene |
| `Playback.RepeatedTick` | fury/animation/timeline.py:269-276 | a second pass at the same time emits exactly the first pass's events without its scene events, so the second pass touches no scene membership |
| `Playback.TickNodeIdempotent` | fury/animation/timeline.py:1050-1120 | an update pass is idempotent on the subtree's state |
| `Playback.LatestBounds` | fury/animation/timeline.py:89-92 | `max([0] + finals)` is at least 0 and at least every child's final, and is 0 or one of them |
| `Playback.Recompute` | fury/animation/timeline.py:81-97 | `update_final_timestamp` keeps the subtree's shape, fixed lengths and panels |
| `Playback.RecomputeBounds` | fury/animation/timeline.py:89-94 | with a fixed length the final timestamp is that length. Without one it never decreases, is not negative, bounds every recomputed child's final timestamp, and is the old value or 0 (see `LatestBounds`). |
| `Playback.RecomputeIdempotent` | fury/animation/timeline.py:81-97 | recomputing twice gives what recomputing once gives |
| `Playback.TickAfterRecompute` | fury/animation/timeline.py:1046-1047 | a pass over a freshly recomputed subtree gives the same final timestamps as a pass over the subtree before recomputing |
| `Playback.PanelPass` | fury/animation/timeline.py:1046-1047 | a timeline with a panel recomputes its subtree, then every child runs its own pass |
| `Playback.KeyframeSpans` | fury/animation/timeline.py:185-189 | a keyframe not past the final timestamp changes nothing. Without a panel the final becomes `max(final, t)`. Without a fixed length it is at least `max(final, t)`. With a panel and a fixed length it becomes that length. |
| `Playback.Pass` | fury/animation/timeline.py:1046-1120 | a pass at a resolved time succeeds, keeps the clock and the loop flag, and leaves a settled subtree |
| `Playback.PassIsVisit` | fury/animation/timeline.py:1046-1054 | a pass is the recomputation (with a panel, when playing or forced), then the scene event, then the animation |
| `Playback.SeekOutcome` | fury/animation/timeline.py:1188-1208 | `seek` succeeds and leaves the clock as `SeekClock` says |
| `Playback.LoopWrapsToStart` | fury/animation/timeline.py:1037-1041 | a looping, playing timeline past its end keeps playing and reads 0, but applies its values at the unclamped time it read |
| `Playback.EndPausesAtFinal` | fury/animation/timeline.py:1042-1045 | with a panel and no loop, an update past the end leaves the timeline paused, reading the final timestamp from then on |
| `Playback.OvershootWithoutPanelFails` | fury/animation/timeline.py:1042-1045 | without a panel and without looping, an update past the end fails (the source calls `pause` on a missing panel) |
| `Playback.UpdateAppliesAtOneTime` | fury/animation/timeline.py:1035-1120 | an update with a given time, or whose clock has not run past the end, applies every value at that one time |
| `Playback.PassKeeps` | fury/animation/timeline.py:1046-1120 | a pass changes only the clock, scene flags and children of the setup. The final timestamp is kept without a panel and never lowered without a fixed length. |
| `Playback.SeekKeeps` | fury/animation/timeline.py:1188-1208 | the same for `seek` |
| `Playback.UpdateKeeps` | fury/animation/timeline.py:1035-1120 | an update never touches the keyframes, the interpolators, the members, the loop flag or the scene window. The final timestamp moves only as `PassKeeps` allows. |
| `Playback.PlayStartsClock` | fury/animation/timeline.py:1122-1130 | `play` succeeds and leaves the clock as `PlayClock` says, including the rewind to 0 at the end |
| `Playback.StopRewinds` | fury/animation/timeline.py:1137-1141 | after `stop` the timeline is stopped and reads 0 from then on; the update it ran applied every value at 0 |
| `Playback.RestartKeepsStartTime` | fury/animation/timeline.py:1143-1147 | `restart` does not rewind: within the final timestamp the clock reads the time elapsed since the old start, and values are applied there |
| `Playback.SpeedKeepsTime` | fury/animation/timeline.py:1281-1296 | the `speed` setter succeeds and leaves the clock as `SpeedClock` says |
| `Playback.PercentTime` | fury/animation/timeline.py:1210-1220 | a percentage in `[0, 100]` of a non-negative final timestamp lies in `[0, final]` |
| `Playback.SeekPercentLands` | fury/animation/timeline.py:1210-1220 | seeking to such a percentage is not clamped: the clock reads exactly that fraction of the final timestamp |
| `Playback.KeyframeNode` | fury/animation/timeline.py:163-183 | `set_keyframe`'s writes touch only the namespace written |
| `Playback.SetKeyframeStores` | fury/animation/timeline.py:142-193 | after `set_keyframe`, including its update, the keyframe is stored and the attribute is interpolatable. A new channel is linear; an existing one keeps its interpolator. The final timestamp is exactly `max(final, t)` without a panel, and at least that without a fixed length. |
| `Playback.AddToSceneFollowsWindow` | fury/animation/timeline.py:1302-1308 | when no child fails, after `add_to_scene` the timeline has the scene. When the clock has not run past the end, its membership follows its window at the time read, so a timeline outside its window is taken out again. |
| `Playback.AddToSceneKeeps` | fury/animation/timeline.py:1302-1308 | `add_to_scene` succeeds exactly when no timeline of the subtree stalls (its clock past the end with neither loop nor panel). It changes only clocks, scenes, scene flags and children, and keeps the spans' lengths and panels. On success every timeline of the subtree has the scene. The root records the scene unless a child failed first. |
| `Playback.JoinFirstKeeps` | fury/animation/timeline.py:1305 | after the first `i` children have been handed to the renderer, the call has succeeded exactly when none of them stalls. Each child changes only as `add_to_scene` may, and on success every joined child's subtree has the scene. |
| `Playback.JoinFirstStops` | fury/animation/timeline.py:1305 | once a child's `add_to_scene` has failed, the later children are not reached |
| `Playback.AddToSceneJoinsChildren` | fury/animation/timeline.py:1302-1308 | when nothing stalls and the clock has not run past the end, each child ends with the scene. It is in the scene exactly when the parent's window and its own window both hold at the time the parent read (the parent's forced update, lines 270-276). |
| `Playback.UpdateKeepsScenes` | fury/animation/timeline.py:1046-1120 | an update over a subtree in which every timeline has the scene leaves every timeline with that scene |
| `Playback.TickKeepsScenes` | fury/animation/timeline.py:1046-1120 | the same for one pass |
| `Timelines.Accepted` | fury/animation/timeline.py:925-935 | the objects `add` accepts before the first unsupported one raises: all of them when every one is supported |
| `Timelines.AcceptedFirst` | fury/animation/timeline.py:925-928 | how `add` on a list splits at its first element |
| `Timelines.FirstIndex` | fury/animation/timeline.py:1029 | the first position of the removed actor |
| `Timelines.Timeline.constructor` | fury/animation/timeline.py:25-79 | empty tables, a stopped clock at speed 1 and time 0, no children, added to the scene with window `[0, ∞)`, the given actors controlled, and the panel as a static actor when asked for |
| `Timelines.Timeline.CurrentTimestamp` | fury/animation/timeline.py:1149-1162 | returns what the clock reads at `now`, and stores it when playing |
| `Timelines.Timeline.Pause` | fury/animation/timeline.py:1132-1135 | the clock becomes `PauseClock` of the old one |
| `Timelines.Timeline.UpdateFinalTimestamp` | fury/animation/timeline.py:81-97 | recomputes every final timestamp of the subtree, by calling the children's own method, and returns its own |
| `Timelines.Timeline.RecomputeChildren` | fury/animation/timeline.py:89-92 | recomputes every child in order and returns `max([0] + finals)` |
| `Timelines.Timeline.HandleSceneEvent` | fury/animation/timeline.py:269-276 | emits `SceneEvent` and sets the flag to `SceneFlag` (see `SceneEventIsEdgeTriggered`) |
| `Timelines.Timeline.UpdateAnimation` | fury/animation/timeline.py:1035-1120 | events, success and the new subtree are those of `Update`, with children updated by their own method |
| `Timelines.Timeline.Overshoot` | fury/animation/timeline.py:1039-1045 | the clock past the end: seek to 0 or to the end, and pause there (failing without a panel). The pass then runs at the unclamped time, as `OvershootOutcome`. |
| `Timelines.Timeline.PassAt` | fury/animation/timeline.py:1046-1120 | the rest of an update, as `Pass` |
| `Timelines.Timeline.Animate` | fury/animation/timeline.py:1056-1120 | the playing-or-forced part: camera, actors, then children |
| `Timelines.Timeline.UpdateChildren` | fury/animation/timeline.py:1119-1120 | every child updated in order at the parent's time, forced, with the parent's flag; events concatenated in child order |
| `Timelines.Timeline.Seek` | fury/animation/timeline.py:1188-1208 | as `SeekOutcome` |
| `Timelines.Timeline.Play` | fury/animation/timeline.py:1122-1130 | as `PlayOutcome` (see `PlayStartsClock`) |
| `Timelines.Timeline.Stop` | fury/animation/timeline.py:1137-1141 | as `StopOutcome` (see `StopRewinds`) |
| `Timelines.Timeline.Restart` | fury/animation/timeline.py:1143-1147 | as `RestartOutcome` (see `RestartKeepsStartTime`) |
| `Timelines.Timeline.SetSpeed` | fury/animation/timeline.py:1281-1296 | as `SpeedOutcome` (see `SpeedKeepsTime`) |
| `Timelines.Timeline.SeekPercent` | fury/animation/timeline.py:1210-1220 | a seek to `PercentTime` of the final timestamp (see `SeekPercentLands`) |
| `Timelines.Timeline.SetTimestamp` | fury/animation/timeline.py:128-140 | the clock becomes `SetTimeClock` of the old one, and nothing else changes |
| `Timelines.Timeline.SetPlaying` | fury/animation/timeline.py:1233-1243 | only the playing flag changes |
| `Timelines.Timeline.SetLoop` | fury/animation/timeline.py:63-64 | the panel's loop toggle sets the loop flag. Only a timeline with a panel has the toggle, hence the precondition. |
| `Timelines.Timeline.AddToSceneAt` | fury/animation/timeline.py:249-257 | the window opens at `t`: the timeline is inside at `u` exactly when `t <= u` and `u` is before the remove time |
| `Timelines.Timeline.RemoveFromSceneAt` | fury/animation/timeline.py:259-267 | the window closes at `t`: inside at `u` exactly when the add time `<= u < t` |
| `Timelines.Timeline.GetValue` | fury/animation/timeline.py:476-502 | a value exactly when the attribute is interpolatable. Every channel with an interpolator has keyframes (as `set_keyframe` and `set_interpolator` keep), and the value is its interpolator evaluated at `t` on them. |
| `Timelines.Timeline.SetInterpolator` | fury/animation/timeline.py:299-328 | a channel with keyframes is rebound to `MakeInterpolator`; otherwise nothing changes |
| `Timelines.Timeline.SetKeyframe` | fury/animation/timeline.py:142-193 | the keyframe is stored and the interpolator bound as `StoreKeyframe`/`BindOnKeyframe` say, and the attribute is interpolatable. Events and new state are those of `KeyframeOutcome` (see `SetKeyframeStores`). |
| `Timelines.Timeline.SetKeyframes` | fury/animation/timeline.py:195-218 | the entries are stored in order, as `StoreAll` (see `StoreAllLastWins`, `StoreAllUntouched`, `StoreAllKeeps`). The channel is bound once any entry is stored, and all entries are stored unless an update failed. Events, success and the new subtree are those of `KeyframesOutcome`, one `set_keyframe` per entry stopping at the first failure (see `KeyframesKeeps`). |
| `Timelines.Timeline.SetRotation` | fury/animation/timeline.py:542-565 | the quaternion `RotationValue` gives is stored as a `set_keyframe`. A raising argument fails, and a skipped one succeeds; neither emits or changes anything. |
| `Playback.RotationValue` | fury/animation/timeline.py:553-565 | four components are a quaternion, kept as given. Three components are converted in z-x-y order, and only as a flat array: a list or a `(1, 3)` array raises. Any other count is skipped. |
| `Playback.Update` | fury/animation/timeline.py:1035-1045 | an update fails exactly when no time is given, the clock has run past the final timestamp, and the timeline neither loops nor has a panel. It leaves a settled subtree and the speed. |
| `Playback.OvershootOutcome` | fury/animation/timeline.py:1037-1045 | past the end, the update succeeds exactly when the timeline loops or has a panel. It keeps the loop flag and the speed. |
| `Playback.PlayOutcome` | fury/animation/timeline.py:1122-1130 | `play` changes only the clock, scene flags and children. It keeps the fixed length, and without one it never lowers the final timestamp. While playing it is a no-op. |
| `Playback.StopOutcome` | fury/animation/timeline.py:1137-1141 | `stop` changes only the clock, scene flags and children, and moves the final timestamp only as `KeepsFinal` allows |
| `Playback.RestartOutcome` | fury/animation/timeline.py:1143-1147 | the same for `restart` |
| `Playback.SpeedOutcome` | fury/animation/timeline.py:1281-1296 | the same for the `speed` setter |
| `Playback.KeyframeOutcome` | fury/animation/timeline.py:185-192 | `set_keyframe` fails exactly when `t > 0` and its update overshoots the updated final timestamp, with neither loop nor panel |
| `Playback.KeyframeOutcomeKeeps` | fury/animation/timeline.py:142-193 | on a timeline ready for it, `set_keyframe` leaves a timeline ready for the next one. It changes only the tables, the camera mark, the clock (not its speed), the scene flags and the children. Its final timestamp is `max(final, t)` without a panel, and at least that without a fixed length. |
| `Playback.KeyframesAdvance` | fury/animation/timeline.py:216-218 | `set_keyframes` from entry `i` is `set_keyframe` on entry `i`, followed by the rest when it succeeded |
| `Playback.LatestStamp` | fury/animation/timeline.py:185-186 | the latest of the old final timestamp and the entries' timestamps: at least each of them, and equal to one of them |
| `Playback.KeyframesKeeps` | fury/animation/timeline.py:195-218 | `set_keyframes` changes only the tables, the camera mark (set by any camera entry), the clock (not its speed), the scene flags and the children. Without a fixed length the final timestamp never drops, and once every entry is stored it covers each entry's timestamp. Without a panel it becomes `LatestStamp`. |
| `Playback.AddToSceneOutcome` | fury/animation/timeline.py:1302-1308 | `add_to_scene` first emits the timeline's own `EnterScene`, and a successful call leaves a settled subtree. The children's own `add_to_scene` calls are nested in order (see `AddToSceneKeeps`). |
| `Playback.CameraEffectsAt` | fury/animation/timeline.py:1057-1083 | every camera value is applied at the pass's `t`, and none is a scene event |
| `Playback.ActorEffectsAt` | fury/animation/timeline.py:1091-1117 | every actor value is applied at the pass's `t`, and none is a scene event |
| `Timelines.Timeline.IsInsideSceneAt` | fury/animation/timeline.py:241-247 | inside exactly when at or after the add time, and before the remove time when one is set |
| `Timelines.Timeline.Resume` | fury/animation/timeline.py:1126-1129 | the tail of `play`: the final timestamps are recomputed, and the clock plays from its stored time |
| `Timelines.Timeline.AddToScene` | fury/animation/timeline.py:1302-1308 | the members join the scene and every static actor is handed to the renderer. Then every child runs its own `AddToScene`, in order. The scene is recorded unless a child failed. On a joinable subtree the events and the new snapshots are exactly `AddToSceneOutcome` (see `AddToSceneKeeps`). |
| `Timelines.Timeline.JoinChildren` | fury/animation/timeline.py:1305 | the loop over the children: the snapshots change only in the children. On a joinable subtree the events, the success flag and the children's new snapshots are exactly `JoinFirst` over all children. |
| `Timelines.Timeline.AddActor` | fury/animation/timeline.py:951-970 | a static actor is appended to the static actors, any other to the controlled actors, and the other list is unchanged |
| `Timelines.Timeline.AddActors` | fury/animation/timeline.py:963-965 | a list of actors is appended in order to the same list |
| `Timelines.Timeline.AddTimeline` | fury/animation/timeline.py:937-949 | the timeline becomes the last child, and the subtree stays well formed |
| `Timelines.Timeline.Add` | fury/animation/timeline.py:915-935 | nested lists are flattened in order. Actors and timelines are appended up to the first unsupported object, where `add` raises; `ok` says whether every object was supported. |
| `Timelines.Timeline.AddAll` | fury/animation/timeline.py:925-928 | the list case of `add`: the same, element by element |
| `Timelines.Timeline.RemoveTimelines` | fury/animation/timeline.py:1017-1019 | no children remain |
| `Timelines.Timeline.RemoveActor` | fury/animation/timeline.py:1021-1029 | removes exactly the first occurrence of the actor. It fails and changes nothing when the actor is absent. |
| `Timelines.Timeline.RemoveActors` | fury/animation/timeline.py:1031-1033 | no controlled actors remain |

## Left out

- Interpolation itself is not modelled; the interpolator module is not part of
  this model. An `Apply` event stands for "this attribute's interpolated value
  at this time". `GetValue` takes the evaluation as a function parameter.
- The scipy rotation conversions are not modelled. `SetRotation` takes the Euler
  to quaternion conversion `toQuat` as a parameter. `set_rotation_as_vector`
  and `get_rotation`'s conversion are left out.
- SetRotation: the argument is its flattened components plus a flag saying
  whether it is a one-dimensional array. A four-component argument is stored
  in that flattened form, whatever its shape.
- `tranforms.rotate` (scipy) and `mat_multiply` are left out. `mat_multiply` is
  an elementwise product and nothing calls it.
- The VTK calls on the camera and actors are left out: the model matrix built
  from the camera rotation, `SetPosition`, `SetScale`, opacity, orientation,
  vertex colours. Only which attribute is applied, to which target and in what
  order is modelled.
- `update_motion_path` and the motion-path actor (numpy sampling and a line
  actor for rendering) are left out. So is its call at the end of
  `set_keyframe` and in `add_to_scene`.
- The playback panel's UI is left out: its widgets, its displayed time and
  final time. The panel is a static actor, and its callbacks are the methods
  they call. `SetLoop` stands for the loop toggle.
- `time.perf_counter()` is replaced by the parameter `now`.
- A negative `length` is excluded by the constructor's precondition. With it,
  `seek` clamps to 0, which is above the final timestamp, so
  `update_animation` and `seek` would call each other forever.
- Without a playback panel, the source calls `pause` on `None` in the
  overshoot branch. The model records this as a failed update (`ok == false`)
  that stops the operation.
- AddToSceneOutcome: a subtree holding a timeline that animates the camera
  without having one yet is excluded (`Joinable`), because fetching the camera
  is not modelled. The whole nested call reads the wall clock at one instant
  `now`.
- Timelines.Timeline.AddToScene: the outcome is promised when the subtree is
  `Joinable` (see the line above); elsewhere the method still runs and keeps
  the class invariant.
- A timeline whose camera is animated but not yet fetched from its scene
  (`update_animation`, lines 1088-1091) is run by the methods. The trace
  contracts are guarded by `Settled`: no timeline in the subtree still has to
  fetch its camera.
- The camera itself is an opaque handle.
- `add` and `add_timeline` are modelled for timelines that are not yet in the
  subtree, so the subtree stays a tree (`Adoptable`). A timeline added twice,
  or to itself, is not modelled.
- The plain wrappers are `SetKeyframe`, `SetInterpolator` or `GetValue` with a
  fixed namespace and attribute name, so they are not separate members:
  - `set_position`, `set_scale`, `set_color`, `set_opacity` and their
    `_keyframes` forms;
  - `set_camera_*`;
  - the `set_*_interpolator` family;
  - `get_*` and `get_camera_*`;
  - `add_static_actor`.
- The `current_timestamp` setter is `seek`, and is not a separate member.
- The `stopped` and `paused` properties are the predicates `IsStopped` and
  `IsPaused`. `IsPaused` also holds for a stopped timeline, as in the source:
  the stored time is never `None`.
- The `final_timestamp`, `playing`, `speed`, `actors`, `timelines`,
  `static_actors` and `has_playback_panel` getters are field reads.
- Keyframe values are real vectors. numpy's conversion to float arrays is not
  modelled.
- `set_keyframes` takes its entries as a sequence. A Python dict cannot repeat
  a timestamp; the sequence can, and then the last entry wins.
- `actor.vcolors = utils.colors_from_actor(actor)` in `add_actor` is left out.
- The loader's file reading, base64 and buffer decoding, and VTK polydata are
  left out. Only the way the loader composes and applies the matrices is
  stated (`TranslateThenScaleComposes`, `NodeTransform`). Rotated nodes and
  `matrix` nodes are not. For a nested node only its matrix is stated, not
  what it does to the vertices.
- SetKeyframes: the outcome is promised when the subtree is `ReadyFor` the
  namespace: it is `Settled`, and a camera keyframe does not leave a camera to
  fetch from the scene.
- Timelines.Timeline.UpdateAnimation and every other method stated through an
  outcome: the outcome is promised when the subtree is `Settled`; a pending
  camera fetch is not specified.
- A final timestamp can drop when a keyframe past the end is set on a timeline
  with a panel and a fixed length shorter than the old final timestamp. The
  `Recompute` step then sets it to the length. `KeyframeSpans` states this case
  as the source behaves.
