/** Value-level semantics of the keyframe-animation timeline: its keyframe
    and interpolator tables, the scene-membership window, the playback clock,
    what one `update_animation` pass does to a timeline subtree (as a
    sequence of events), and how final timestamps are recomputed. The
    `Timelines` module proves its heap-based `Timeline` class against these
    functions. */
module Playback {

  datatype Option<T> = None | Some(value: T)

  /** The two keyframe namespaces of a timeline. */
  datatype Space = Attribs | Camera

  /** One table per namespace (the `'attribs'` and `'camera'` halves of the
      timeline's keyframe and interpolator dictionaries). */
  datatype Spaces<T> = Spaces(attribs: T, camera: T) {
    function Get(space: Space): T {
      match space
      case Attribs => attribs
      case Camera => camera
    }

    function Put(space: Space, v: T): (r: Spaces<T>)
      ensures r.Get(space) == v
      ensures forall other: Space :: other != space ==> r.Get(other) == Get(other)
    {
      match space
      case Attribs => this.(attribs := v)
      case Camera => this.(camera := v)
    }
  }

  /** A stored keyframe: its value and its optional Bezier control points. */
  datatype Keyframe = Keyframe(value: seq<real>, preCp: Option<seq<real>>, postCp: Option<seq<real>>)

  /** The keyframes of one attribute, by timestamp. */
  type Channel = map<real, Keyframe>

  /** Interpolation strategies. Only the two the timeline refers to by name
      are told apart; every other class a caller may pass is `Other`. */
  datatype Strategy = Linear | Spline | Other(name: string)

  /** An interpolator bound to one channel. Which keyframes it reads is not
      stored: it always reads the channel it is registered for. */
  datatype Interpolator = Interpolator(strategy: Strategy, splineDegree: Option<int>)

  /** The interpolator a channel gets with its first keyframe. */
  const DefaultInterpolator := Interpolator(Linear, None)

  /** Renderable members, cameras and scenes are external handles. */
  datatype Actor = Actor(id: nat) | PanelWidget
  datatype CameraRef = CameraRef(id: nat)
  datatype Scene = Scene(id: nat, camera: CameraRef)

  // ---------------------------------------------------------------------
  // Keyframe and interpolator tables

  /** `set_keyframe`'s write into one namespace: `k` lands at (`attrib`, `t`),
      the attribute's channel is created if it had none, and nothing else
      changes. */
  function StoreKeyframe(channels: map<string, Channel>, attrib: string, t: real, k: Keyframe): (r: map<string, Channel>)
    ensures r.Keys == channels.Keys + {attrib}
    ensures t in r[attrib] && r[attrib][t] == k
    ensures forall u :: u != t ==> (u in r[attrib] <==> attrib in channels && u in channels[attrib])
    ensures forall u :: u != t && u in r[attrib] ==> r[attrib][u] == channels[attrib][u]
    ensures forall a :: a in channels && a != attrib ==> r[a] == channels[a]
  {
    var channel := if attrib in channels then channels[attrib] else map[];
    channels[attrib := channel[t := k]]
  }

  /** The interpolator table after a keyframe on `attrib`: a new channel is
      bound to a linear interpolator, an existing one keeps its own. */
  function BindOnKeyframe(table: map<string, Interpolator>, attrib: string): (r: map<string, Interpolator>)
    ensures r.Keys == table.Keys + {attrib}
    ensures attrib in table ==> r == table
    ensures attrib !in table ==> r[attrib] == DefaultInterpolator
    ensures forall a :: a in table ==> r[a] == table[a]
  {
    if attrib in table then table else table[attrib := DefaultInterpolator]
  }

  /** The interpolator `set_interpolator` builds: a spline takes the degree
      when one is given; every other strategy is built without it. */
  function MakeInterpolator(strategy: Strategy, degree: Option<int>): (r: Interpolator)
    ensures r.strategy == strategy
    ensures r.splineDegree.Some? <==> strategy == Spline && degree.Some?
    ensures r.splineDegree.Some? ==> r.splineDegree == degree
  {
    if degree.Some? && strategy == Spline then Interpolator(Spline, degree) else Interpolator(strategy, None)
  }

  /** The keyframe `set_keyframes` and `set_rotation` store: a value
      without control points. */
  function Plain(v: seq<real>): Keyframe {
    Keyframe(v, None, None)
  }

  /** `set_keyframes`' writes into one namespace: the entries of `ks`, in
      order, each stored as by `set_keyframe`. */
  function StoreAll(channels: map<string, Channel>, attrib: string, ks: seq<(real, seq<real>)>): map<string, Channel>
    decreases |ks|
  {
    if |ks| == 0 then channels
    else StoreKeyframe(StoreAll(channels, attrib, ks[..|ks| - 1]), attrib, ks[|ks| - 1].0, Plain(ks[|ks| - 1].1))
  }

  /** One more entry of a run of `set_keyframes`. */
  lemma StoreAllNext(channels: map<string, Channel>, attrib: string, ks: seq<(real, seq<real>)>, i: nat)
    requires i < |ks|
    ensures StoreAll(channels, attrib, ks[..i + 1]) == StoreKeyframe(StoreAll(channels, attrib, ks[..i]), attrib, ks[i].0, Plain(ks[i].1))
  {
    assert ks[..i + 1][..i] == ks[..i];
  }

  /** After `set_keyframes` the attribute has a channel (when `ks` is not
      empty) and every other attribute is as before. */
  lemma {:induction false} StoreAllKeeps(channels: map<string, Channel>, attrib: string, ks: seq<(real, seq<real>)>)
    ensures StoreAll(channels, attrib, ks).Keys == channels.Keys + (if |ks| == 0 then {} else {attrib})
    ensures forall a :: a in channels && a != attrib ==> StoreAll(channels, attrib, ks)[a] == channels[a]
    decreases |ks|
  {
    if |ks| > 0 {
      StoreAllKeeps(channels, attrib, ks[..|ks| - 1]);
    }
  }

  /** The timestamps named by entries of `ks`. */
  function Stamps(ks: seq<(real, seq<real>)>): set<real> {
    set e | e in ks :: e.0
  }

  /** After `set_keyframes` each timestamp of `ks` holds the value of its
      last entry. */
  lemma {:induction false} StoreAllLastWins(channels: map<string, Channel>, attrib: string, ks: seq<(real, seq<real>)>)
    ensures forall i :: 0 <= i < |ks| && ks[i].0 !in Stamps(ks[i + 1..]) ==>
              attrib in StoreAll(channels, attrib, ks) && ks[i].0 in StoreAll(channels, attrib, ks)[attrib]
              && StoreAll(channels, attrib, ks)[attrib][ks[i].0] == Plain(ks[i].1)
    decreases |ks|
  {
    if |ks| > 0 {
      var front := ks[..|ks| - 1];
      StoreAllLastWins(channels, attrib, front);
      var prev, last := StoreAll(channels, attrib, front), ks[|ks| - 1];
      var r := StoreKeyframe(prev, attrib, last.0, Plain(last.1));
      assert StoreAll(channels, attrib, ks) == r;
      forall i | 0 <= i < |ks| && ks[i].0 !in Stamps(ks[i + 1..])
        ensures ks[i].0 in r[attrib] && r[attrib][ks[i].0] == Plain(ks[i].1)
      {
        if i < |ks| - 1 {
          assert ks[i + 1..][|ks| - i - 2] == last;
          assert front[i] == ks[i] && front[i + 1..] == ks[i + 1..|ks| - 1];
          assert Stamps(front[i + 1..]) <= Stamps(ks[i + 1..]);
        }
      }
    }
  }

  /** After `set_keyframes` a timestamp that no entry of `ks` names has the
      keyframe it had before, or none. */
  lemma {:induction false} StoreAllUntouched(channels: map<string, Channel>, attrib: string, ks: seq<(real, seq<real>)>)
    ensures forall u :: attrib in StoreAll(channels, attrib, ks) && u !in Stamps(ks) ==>
              (u in StoreAll(channels, attrib, ks)[attrib] <==> attrib in channels && u in channels[attrib])
              && (u in StoreAll(channels, attrib, ks)[attrib] ==> StoreAll(channels, attrib, ks)[attrib][u] == channels[attrib][u])
    decreases |ks|
  {
    if |ks| > 0 {
      var front := ks[..|ks| - 1];
      StoreAllUntouched(channels, attrib, front);
      StoreAllKeeps(channels, attrib, front);
      assert ks == front + [ks[|ks| - 1]];
      assert Stamps(ks) == Stamps(front) + {ks[|ks| - 1].0};
    }
  }

  /** Binding on a second keyframe of the same channel changes nothing. */
  lemma BindOnKeyframeTwice(table: map<string, Interpolator>, attrib: string)
    ensures BindOnKeyframe(BindOnKeyframe(table, attrib), attrib) == BindOnKeyframe(table, attrib)
  {
  }

  /** What `set_rotation` makes of its argument. */
  datatype Rotation = Quaternion(q: seq<real>) | Skipped | Raises

  /** `set_rotation`'s value. `rotation` holds the argument's components,
      flattened; `flat` says whether the argument is a one-dimensional numpy
      array. Four components are a quaternion and are stored as given.
      Three are Euler angles in degrees: they are picked in z-x-y order
      by `rotation[[2, 0, 1]]` and converted by `toQuat`. That fancy index
      raises on a list (`TypeError`) and on a `(1, 3)` array (`IndexError`),
      so three components work only as a flat array. Any other count is
      skipped with a warning. */
  function RotationValue(rotation: seq<real>, flat: bool, toQuat: seq<real> -> seq<real>): (r: Rotation)
    ensures r.Quaternion? <==> |rotation| == 4 || (|rotation| == 3 && flat)
    ensures r.Raises? <==> |rotation| == 3 && !flat
    ensures |rotation| == 4 ==> r.q == rotation
    ensures |rotation| == 3 && flat ==> r.q == toQuat([rotation[2], rotation[0], rotation[1]])
  {
    if |rotation| == 4 then Quaternion(rotation)
    else if |rotation| == 3 then (if flat then Quaternion(toQuat([rotation[2], rotation[0], rotation[1]])) else Raises)
    else Skipped
  }

  // ---------------------------------------------------------------------
  // Scene-membership window

  /** `is_inside_scene_at`: at or after the add time, and before the remove
      time when one is set. */
  function InsideSceneAt(addTime: real, removeTime: Option<real>, t: real): (inside: bool)
    ensures inside <==> addTime <= t && (removeTime.None? || t < removeTime.value)
  {
    if removeTime.Some? && t >= removeTime.value then false
    else t >= addTime
  }

  // ---------------------------------------------------------------------
  // Playback clock

  /** The clock fields of a timeline: `_playing`, `_last_timestamp`,
      `_last_started_time` and `_speed`. */
  datatype Clock = Clock(playing: bool, last: real, started: real, speed: real)

  /** What the `current_timestamp` getter returns at wall time `now`. */
  function Read(c: Clock, now: real): real {
    if c.playing then (now - c.started) * c.speed else c.last
  }

  /** The clock after the getter ran: when playing it stores what it read. */
  function AfterRead(c: Clock, now: real): (r: Clock)
    ensures Read(r, now) == Read(c, now)
    ensures r.last == Read(c, now)
    ensures r.playing == c.playing && r.started == c.started && r.speed == c.speed
  {
    if c.playing then c.(last := Read(c, now)) else c
  }

  /** `seek`'s clamping of the requested time against the final timestamp. */
  function Clamp(t: real, final: real): (r: real)
    ensures final >= 0.0 ==> 0.0 <= r <= final
    ensures 0.0 <= t <= final ==> r == t
  {
    if t < 0.0 then 0.0 else if t > final then final else t
  }

  /** `seek`'s effect on the clock: when playing, the start time is moved so
      that the clock reads the clamped time now; otherwise the clamped time
      is stored. */
  function SeekClock(c: Clock, t: real, final: real, now: real): (r: Clock)
    requires c.speed > 0.0
    ensures r.playing == c.playing && r.speed == c.speed
    ensures Read(r, now) == Clamp(t, final)
    ensures !c.playing ==> r.started == c.started
    ensures c.playing ==> r.last == c.last
  {
    var x := Clamp(t, final);
    if c.playing then
      assert (now - (now - x / c.speed)) * c.speed == x;
      c.(started := now - x / c.speed)
    else
      c.(last := x)
  }

  /** `pause`: freeze the clock at what it reads now. */
  function PauseClock(c: Clock, now: real): (r: Clock)
    ensures !r.playing
    ensures forall later :: Read(r, later) == Read(c, now)
  {
    c.(last := Read(c, now), playing := false)
  }

  /** The time `play` resumes from: the frozen time, or 0 once the final
      timestamp has been reached. */
  function ResumeTime(c: Clock, final: real): real {
    if c.last >= final then 0.0 else c.last
  }

  /** `play`'s effect on the clock (a no-op while playing). */
  function PlayClock(c: Clock, final: real, now: real): (r: Clock)
    requires c.speed > 0.0
    ensures r.playing && r.speed == c.speed
    ensures c.playing ==> r == c
  {
    if c.playing then c
    else
      var from := ResumeTime(c, final);
      c.(last := from, started := now - from / c.speed, playing := true)
  }

  /** After `play` at `now`, the clock reads the resume time plus the
      elapsed wall time scaled by the speed. */
  lemma PlayThenRead(c: Clock, final: real, now: real, d: real)
    requires c.speed > 0.0 && !c.playing
    ensures Read(PlayClock(c, final, now), now + d) == ResumeTime(c, final) + d * c.speed
  {
    var from := ResumeTime(c, final);
    calc {
      Read(PlayClock(c, final, now), now + d);
      (now + d - (now - from / c.speed)) * c.speed;
      (d + from / c.speed) * c.speed;
      d * c.speed + (from / c.speed) * c.speed;
      { assert (from / c.speed) * c.speed == from; }
      from + d * c.speed;
    }
  }

  /** The `speed` setter: read the clock; ignore a speed that is not
      positive; otherwise adopt it, restart the wall-clock reference and
      seek back to the time just read. */
  function SpeedClock(c: Clock, speed: real, final: real, now: real): (r: Clock)
    requires c.speed > 0.0
    ensures r.speed > 0.0
    ensures speed <= 0.0 ==> r.speed == c.speed && Read(r, now) == Read(c, now)
    ensures speed > 0.0 ==> r.speed == speed && Read(r, now) == Clamp(Read(c, now), final)
    ensures r.playing == c.playing
  {
    var current := Read(c, now);
    var c1 := AfterRead(c, now);
    if speed <= 0.0 then c1
    else SeekClock(c1.(speed := speed, started := now), current, final, now)
  }

  /** `set_timestamp`: when playing, move the start time so that the clock
      reads `t` now; otherwise store `t`. Unlike `seek` it neither clamps
      nor updates. */
  function SetTimeClock(c: Clock, t: real, now: real): (r: Clock)
    requires c.speed > 0.0
    ensures r.playing == c.playing && r.speed == c.speed
    ensures Read(r, now) == t
    ensures !c.playing ==> r.started == c.started
    ensures c.playing ==> r.last == c.last
  {
    if c.playing then
      assert (now - (now - t / c.speed)) * c.speed == t;
      c.(started := now - t / c.speed)
    else
      c.(last := t)
  }

  /** The `stopped` property: not playing and at time 0. */
  predicate IsStopped(c: Clock) {
    !c.playing && c.last == 0.0
  }

  /** The `paused` property: not playing and a stored time is present; the
      stored time is never missing, so every clock that is not playing,
      a stopped one included, counts as paused. */
  predicate IsPaused(c: Clock) {
    !c.playing
  }

  /** Seeking twice to the same time at the same instant is the same as
      seeking once. */
  lemma SeekIdempotent(c: Clock, t: real, final: real, now: real)
    requires c.speed > 0.0
    ensures SeekClock(SeekClock(c, t, final, now), t, final, now) == SeekClock(c, t, final, now)
  {
  }

  // ---------------------------------------------------------------------
  // One update pass over a timeline subtree

  /** What a timeline applies values to. */
  datatype Target = OnCamera(camera: CameraRef) | OnContainer | OnActor(actor: Actor)

  /** An observable effect of a timeline `owner`. `Apply` stands for setting
      `attrib` of `target` to the value the channel's interpolator gives at
      time `at`. */
  datatype Event<O> =
    | EnterScene(owner: O)      // the container's members join the scene
    | LeaveScene(owner: O)      // and leave it
    | Apply(owner: O, space: Space, attrib: string, target: Target, at: real)
    | ResetViewUp(owner: O, camera: CameraRef)
    | RendererAdd(owner: O, actor: Actor)   // a static actor handed to the renderer

  predicate IsSceneEvent<O>(e: Event<O>) {
    e.EnterScene? || e.LeaveScene?
  }

  /** A value snapshot of a timeline subtree: every field of every timeline
      in it except the final timestamps (see `Span`). */
  datatype Node<O> = Node(
    owner: O,
    clock: Clock,
    loop: bool,
    camera: Option<CameraRef>,
    cameraAnimated: bool,
    scene: Option<Scene>,
    addedToScene: bool,
    addTime: real,
    removeTime: Option<real>,
    keyframes: Spaces<map<string, Channel>>,
    interpolators: Spaces<map<string, Interpolator>>,
    actors: seq<Actor>,
    staticActors: seq<Actor>,
    children: seq<Node<O>>)

  /** The node would fetch the scene's camera on its next update (and then
      re-run the update on its own clock). */
  predicate Pending<O>(n: Node<O>) {
    n.camera.None? && n.cameraAnimated && n.scene.Some?
  }

  /** No node of the subtree is pending a camera fetch. */
  predicate Settled<O>(n: Node<O>) {
    !Pending(n) && forall i :: 0 <= i < |n.children| ==> Settled(n.children[i])
  }

  predicate AllSettled<O>(cs: seq<Node<O>>) {
    forall i :: 0 <= i < |cs| ==> Settled(cs[i])
  }

  /** The in-scene flag of an update: the node's own window, and the
      parent's flag when one is passed down. */
  function InScene<O>(n: Node<O>, t: real, parent: Option<bool>): bool {
    var inside := InsideSceneAt(n.addTime, n.removeTime, t);
    if parent.Some? then parent.value && inside else inside
  }

  /** `handle_scene_event`'s events: only a change of membership is acted on,
      and only when the timeline has a scene. */
  function SceneEvent<O>(owner: O, scene: Option<Scene>, added: bool, inScene: bool): seq<Event<O>> {
    if scene.None? then []
    else if inScene && !added then [EnterScene(owner)]
    else if !inScene && added then [LeaveScene(owner)]
    else []
  }

  /** `handle_scene_event`'s new membership flag. */
  function SceneFlag(scene: Option<Scene>, added: bool, inScene: bool): bool {
    if scene.None? then added else inScene
  }

  /** Scene membership is edge-triggered: with a scene the flag follows
      `inScene` and an event is emitted exactly on a change, the same call
      again emits nothing and keeps the flag; without a scene nothing
      happens. */
  lemma SceneEventIsEdgeTriggered<O>(owner: O, scene: Option<Scene>, added: bool, inScene: bool)
    ensures scene.Some? ==> SceneFlag(scene, added, inScene) == inScene
    ensures scene.None? ==> SceneFlag(scene, added, inScene) == added && SceneEvent(owner, scene, added, inScene) == []
    ensures SceneEvent(owner, scene, added, inScene) != [] <==> scene.Some? && added != inScene
    ensures SceneEvent(owner, scene, SceneFlag(scene, added, inScene), inScene) == []
    ensures SceneFlag(scene, SceneFlag(scene, added, inScene), inScene) == SceneFlag(scene, added, inScene)
  {
  }

  /** The camera attributes an update applies, in order: rotation, position,
      focal point, then the view-up vector or, without one, the default
      view-up. */
  function CameraEffects<O>(owner: O, has: set<string>, camera: CameraRef, t: real): seq<Event<O>> {
    (if "rotation" in has then [Apply(owner, Camera, "rotation", OnCamera(camera), t)] else [])
    + (if "position" in has then [Apply(owner, Camera, "position", OnCamera(camera), t)] else [])
    + (if "focal" in has then [Apply(owner, Camera, "focal", OnCamera(camera), t)] else [])
    + (if "view_up" in has then [Apply(owner, Camera, "view_up", OnCamera(camera), t)]
       else [ResetViewUp(owner, camera)])
  }

  /** `attrib` applied to every controlled actor, in order. */
  function EachActor<O>(owner: O, attrib: string, actors: seq<Actor>, t: real): seq<Event<O>> {
    seq(|actors|, i requires 0 <= i < |actors| => Apply(owner, Attribs, attrib, OnActor(actors[i]), t))
  }

  /** The object attributes an update applies, in order: the container's
      position, then scale, opacity, rotation and color of every actor. */
  function ActorEffects<O>(owner: O, has: set<string>, actors: seq<Actor>, t: real): seq<Event<O>> {
    (if "position" in has then [Apply(owner, Attribs, "position", OnContainer, t)] else [])
    + (if "scale" in has then EachActor(owner, "scale", actors, t) else [])
    + (if "opacity" in has then EachActor(owner, "opacity", actors, t) else [])
    + (if "rotation" in has then EachActor(owner, "rotation", actors, t) else [])
    + (if "color" in has then EachActor(owner, "color", actors, t) else [])
  }

  /** A node's own applied values: its camera attributes, then its object
      attributes while it is in the scene. */
  function OwnEffects<O>(n: Node<O>, t: real, inScene: bool): seq<Event<O>> {
    (if n.camera.Some? then CameraEffects(n.owner, n.interpolators.camera.Keys, n.camera.value, t) else [])
    + (if inScene then ActorEffects(n.owner, n.interpolators.attribs.Keys, n.actors, t) else [])
  }

  /** The events of `update_animation(t, force, parent)` on a settled
      subtree: the scene event; then, when playing or forced, the node's own
      applied values and every child updated at the same `t`, forced, with
      this node's in-scene flag. */
  function TickEffects<O>(n: Node<O>, t: real, force: bool, parent: Option<bool>): seq<Event<O>>
    requires Settled(n)
    decreases n
  {
    var inScene := InScene(n, t, parent);
    SceneEvent(n.owner, n.scene, n.addedToScene, inScene)
    + if !(n.clock.playing || force) then []
      else OwnEffects(n, t, inScene) + ChildrenEffects(n.children, 0, t, inScene)
  }

  function ChildrenEffects<O>(cs: seq<Node<O>>, i: nat, t: real, inScene: bool): seq<Event<O>>
    requires AllSettled(cs) && i <= |cs|
    decreases cs, |cs| - i
  {
    if i == |cs| then []
    else TickEffects(cs[i], t, true, Some(inScene)) + ChildrenEffects(cs, i + 1, t, inScene)
  }

  /** The subtree after `update_animation(t, force, parent)`: the scene flag
      follows the in-scene flag, the children are updated the same way when
      playing or forced, and nothing else changes. */
  function TickNode<O>(n: Node<O>, t: real, force: bool, parent: Option<bool>): (r: Node<O>)
    requires Settled(n)
    ensures Settled(r)
    ensures r == n.(addedToScene := r.addedToScene, children := r.children)
    ensures r.addedToScene == SceneFlag(n.scene, n.addedToScene, InScene(n, t, parent))
    ensures |r.children| == |n.children|
    decreases n
  {
    var inScene := InScene(n, t, parent);
    var n1 := n.(addedToScene := SceneFlag(n.scene, n.addedToScene, inScene));
    if n.clock.playing || force then n1.(children := TickChildren(n.children, 0, t, inScene)) else n1
  }

  function TickChildren<O>(cs: seq<Node<O>>, i: nat, t: real, inScene: bool): (r: seq<Node<O>>)
    requires AllSettled(cs) && i <= |cs|
    ensures |r| == |cs| - i && AllSettled(r)
    decreases cs, |cs| - i
  {
    if i == |cs| then []
    else [TickNode(cs[i], t, true, Some(inScene))] + TickChildren(cs, i + 1, t, inScene)
  }

  lemma {:induction false} TickChildrenAt<O>(cs: seq<Node<O>>, i: nat, t: real, inScene: bool)
    requires AllSettled(cs) && i <= |cs|
    ensures forall j :: 0 <= j < |cs| - i ==> TickChildren(cs, i, t, inScene)[j] == TickNode(cs[i + j], t, true, Some(inScene))
    decreases |cs| - i
  {
    if i < |cs| {
      TickChildrenAt(cs, i + 1, t, inScene);
    }
  }

  lemma TickChildAt<O>(cs: seq<Node<O>>, j: nat, t: real, inScene: bool)
    requires AllSettled(cs) && j < |cs|
    ensures TickChildren(cs, 0, t, inScene)[j] == TickNode(cs[j], t, true, Some(inScene))
  {
    TickChildrenAt(cs, 0, t, inScene);
  }

  /** Every child is updated with the parent's `t`, and counts as in the
      scene exactly when the parent does and its own window holds. */
  lemma ChildrenFollowParent<O>(n: Node<O>, t: real, force: bool, parent: Option<bool>, j: nat)
    requires Settled(n) && (n.clock.playing || force) && j < |n.children|
    ensures TickNode(n, t, force, parent).children[j] == TickNode(n.children[j], t, true, Some(InScene(n, t, parent)))
    ensures n.children[j].scene.Some? ==>
      TickNode(n, t, force, parent).children[j].addedToScene
      == (InScene(n, t, parent) && InsideSceneAt(n.children[j].addTime, n.children[j].removeTime, t))
  {
    TickChildrenAt(n.children, 0, t, InScene(n, t, parent));
  }

  /** Every value applied in `es` is taken at time `t`. */
  predicate AllAt<O>(es: seq<Event<O>>, t: real) {
    forall i :: 0 <= i < |es| && es[i].Apply? ==> es[i].at == t
  }

  /** `es` neither adds to nor removes from the scene. */
  predicate NoSceneEvents<O>(es: seq<Event<O>>) {
    forall i :: 0 <= i < |es| ==> !IsSceneEvent(es[i])
  }

  lemma ConcatKeeps<O>(a: seq<Event<O>>, b: seq<Event<O>>, t: real)
    ensures AllAt(a, t) && AllAt(b, t) ==> AllAt(a + b, t)
    ensures NoSceneEvents(a) && NoSceneEvents(b) ==> NoSceneEvents(a + b)
  {
    forall i | 0 <= i < |a + b|
      ensures (a + b)[i] == if i < |a| then a[i] else b[i - |a|]
    {
    }
  }

  lemma CameraEffectsAt<O>(owner: O, has: set<string>, camera: CameraRef, t: real)
    ensures AllAt(CameraEffects(owner, has, camera, t), t)
    ensures NoSceneEvents(CameraEffects(owner, has, camera, t))
  {
    var p1: seq<Event<O>> := if "rotation" in has then [Apply(owner, Camera, "rotation", OnCamera(camera), t)] else [];
    var p2: seq<Event<O>> := if "position" in has then [Apply(owner, Camera, "position", OnCamera(camera), t)] else [];
    var p3: seq<Event<O>> := if "focal" in has then [Apply(owner, Camera, "focal", OnCamera(camera), t)] else [];
    var p4: seq<Event<O>> := if "view_up" in has then [Apply(owner, Camera, "view_up", OnCamera(camera), t)]
                             else [ResetViewUp(owner, camera)];
    assert CameraEffects(owner, has, camera, t) == p1 + p2 + p3 + p4;
    ConcatKeeps(p1, p2, t);
    ConcatKeeps(p1 + p2, p3, t);
    ConcatKeeps(p1 + p2 + p3, p4, t);
  }

  lemma ActorEffectsAt<O>(owner: O, has: set<string>, actors: seq<Actor>, t: real)
    ensures AllAt(ActorEffects(owner, has, actors, t), t)
    ensures NoSceneEvents(ActorEffects(owner, has, actors, t))
  {
    var p0: seq<Event<O>> := if "position" in has then [Apply(owner, Attribs, "position", OnContainer, t)] else [];
    var p1 := if "scale" in has then EachActor(owner, "scale", actors, t) else [];
    var p2 := if "opacity" in has then EachActor(owner, "opacity", actors, t) else [];
    var p3 := if "rotation" in has then EachActor(owner, "rotation", actors, t) else [];
    var p4 := if "color" in has then EachActor(owner, "color", actors, t) else [];
    assert ActorEffects(owner, has, actors, t) == p0 + p1 + p2 + p3 + p4;
    ConcatKeeps(p0, p1, t);
    ConcatKeeps(p0 + p1, p2, t);
    ConcatKeeps(p0 + p1 + p2, p3, t);
    ConcatKeeps(p0 + p1 + p2 + p3, p4, t);
  }

  /** A node's own applied values are all taken at `t` and never touch the
      scene membership. */
  lemma OwnEffectsAt<O>(n: Node<O>, t: real, inScene: bool)
    ensures AllAt(OwnEffects(n, t, inScene), t)
    ensures NoSceneEvents(OwnEffects(n, t, inScene))
  {
    var c: seq<Event<O>> := if n.camera.Some? then CameraEffects(n.owner, n.interpolators.camera.Keys, n.camera.value, t) else [];
    var a: seq<Event<O>> := if inScene then ActorEffects(n.owner, n.interpolators.attribs.Keys, n.actors, t) else [];
    if n.camera.Some? {
      CameraEffectsAt(n.owner, n.interpolators.camera.Keys, n.camera.value, t);
    }
    ActorEffectsAt(n.owner, n.interpolators.attribs.Keys, n.actors, t);
    ConcatKeeps(c, a, t);
  }

  /** Every value an update pass applies, anywhere in the subtree, is taken
      at the `t` it was called with. */
  lemma {:induction false} TickAppliesAt<O>(n: Node<O>, t: real, force: bool, parent: Option<bool>)
    requires Settled(n)
    ensures AllAt(TickEffects(n, t, force, parent), t)
    decreases n
  {
    var inScene := InScene(n, t, parent);
    var sc := SceneEvent(n.owner, n.scene, n.addedToScene, inScene);
    if n.clock.playing || force {
      var own := OwnEffects(n, t, inScene);
      var kids := ChildrenEffects(n.children, 0, t, inScene);
      OwnEffectsAt(n, t, inScene);
      ChildrenApplyAt(n.children, 0, t, inScene);
      ConcatKeeps(own, kids, t);
      ConcatKeeps(sc, own + kids, t);
    } else {
      ConcatKeeps(sc, [], t);
    }
  }

  lemma {:induction false} ChildrenApplyAt<O>(cs: seq<Node<O>>, i: nat, t: real, inScene: bool)
    requires AllSettled(cs) && i <= |cs|
    ensures AllAt(ChildrenEffects(cs, i, t, inScene), t)
    decreases cs, |cs| - i
  {
    if i < |cs| {
      TickAppliesAt(cs[i], t, true, Some(inScene));
      ChildrenApplyAt(cs, i + 1, t, inScene);
      ConcatKeeps(TickEffects(cs[i], t, true, Some(inScene)), ChildrenEffects(cs, i + 1, t, inScene), t);
    }
  }

  /** `es` without its scene events, in order. */
  function Strip<O>(es: seq<Event<O>>): (r: seq<Event<O>>)
    ensures NoSceneEvents(r)
    ensures NoSceneEvents(es) ==> r == es
  {
    if es == [] then []
    else (if IsSceneEvent(es[0]) then [] else [es[0]]) + Strip(es[1..])
  }

  lemma {:induction false} StripConcat<O>(a: seq<Event<O>>, b: seq<Event<O>>)
    ensures Strip(a + b) == Strip(a) + Strip(b)
  {
    if a == [] {
      assert a + b == b;
    } else {
      assert (a + b)[1..] == a[1..] + b;
      StripConcat(a[1..], b);
    }
  }

  /** Scene events are edge-triggered and an update pass is repeatable: a
      second pass at the same `t` with the same flags applies exactly the
      values of the first, in the same order, and adds nothing to or removes
      nothing from the scene. */
  lemma {:induction false} RepeatedTick<O>(n: Node<O>, t: real, force: bool, parent: Option<bool>)
    requires Settled(n)
    ensures TickEffects(TickNode(n, t, force, parent), t, force, parent) == Strip(TickEffects(n, t, force, parent))
    ensures NoSceneEvents(TickEffects(TickNode(n, t, force, parent), t, force, parent))
    decreases n
  {
    var inScene := InScene(n, t, parent);
    var m := TickNode(n, t, force, parent);
    assert InScene(m, t, parent) == inScene;
    assert SceneEvent(m.owner, m.scene, m.addedToScene, inScene) == [];
    var sc := SceneEvent(n.owner, n.scene, n.addedToScene, inScene);
    assert Strip(sc) == [];
    if n.clock.playing || force {
      var own := OwnEffects(n, t, inScene);
      var kids := ChildrenEffects(n.children, 0, t, inScene);
      assert OwnEffects(m, t, inScene) == own;
      OwnEffectsAt(n, t, inScene);
      RepeatedChildren(n.children, 0, t, inScene);
      StripConcat(own, kids);
      StripConcat(sc, own + kids);
      assert TickEffects(m, t, force, parent) == [] + (own + Strip(kids));
    } else {
      StripConcat(sc, []);
    }
  }

  lemma {:induction false} RepeatedChildren<O>(cs: seq<Node<O>>, i: nat, t: real, inScene: bool)
    requires AllSettled(cs) && i <= |cs|
    ensures ChildrenEffects(TickChildren(cs, 0, t, inScene), i, t, inScene) == Strip(ChildrenEffects(cs, i, t, inScene))
    decreases cs, |cs| - i
  {
    if i < |cs| {
      var ticked := TickChildren(cs, 0, t, inScene);
      TickChildrenAt(cs, 0, t, inScene);
      assert ticked[i] == TickNode(cs[i], t, true, Some(inScene));
      RepeatedTick(cs[i], t, true, Some(inScene));
      RepeatedChildren(cs, i + 1, t, inScene);
      StripConcat(TickEffects(cs[i], t, true, Some(inScene)), ChildrenEffects(cs, i + 1, t, inScene));
    }
  }

  /** An update pass is idempotent on the subtree's state. */
  lemma {:induction false} TickNodeIdempotent<O>(n: Node<O>, t: real, force: bool, parent: Option<bool>)
    requires Settled(n)
    ensures TickNode(TickNode(n, t, force, parent), t, force, parent) == TickNode(n, t, force, parent)
    decreases n
  {
    var inScene := InScene(n, t, parent);
    var m := TickNode(n, t, force, parent);
    assert InScene(m, t, parent) == inScene;
    var r := TickNode(m, t, force, parent);
    assert r.addedToScene == m.addedToScene;
    if n.clock.playing || force {
      TickChildrenIdempotent(n.children, t, inScene);
      assert r.children == m.children;
    }
  }

  lemma {:induction false} TickChildrenIdempotent<O>(cs: seq<Node<O>>, t: real, inScene: bool)
    requires AllSettled(cs)
    ensures TickChildren(TickChildren(cs, 0, t, inScene), 0, t, inScene) == TickChildren(cs, 0, t, inScene)
    decreases cs
  {
    var once := TickChildren(cs, 0, t, inScene);
    var twice := TickChildren(once, 0, t, inScene);
    TickChildrenAt(cs, 0, t, inScene);
    TickChildrenAt(once, 0, t, inScene);
    forall j | 0 <= j < |cs|
      ensures twice[j] == once[j]
    {
      TickNodeIdempotent(cs[j], t, true, Some(inScene));
    }
  }

  // ---------------------------------------------------------------------
  // Final timestamps

  /** The part of a timeline subtree final timestamps are computed from:
      the final timestamp, the fixed length if any, and whether the
      timeline has a playback panel. */
  datatype Span = Span(final: real, length: Option<real>, hasPanel: bool, children: seq<Span>)

  function MaxOf(a: real, b: real): (m: real)
    ensures m >= a && m >= b && (m == a || m == b)
  {
    if a >= b then a else b
  }

  /** The final timestamps of the first `n` of `kids`, in order. */
  function Finals(kids: seq<Span>, n: nat): (fs: seq<real>)
    requires n <= |kids|
    ensures |fs| == n
  {
    if n == 0 then [] else Finals(kids, n - 1) + [kids[n - 1].final]
  }

  lemma {:induction false} FinalsAt(kids: seq<Span>, n: nat)
    requires n <= |kids|
    ensures forall i :: 0 <= i < n ==> Finals(kids, n)[i] == kids[i].final
  {
    if n > 0 {
      FinalsAt(kids, n - 1);
    }
  }

  /** `max([0] + fs)`. */
  function Latest(fs: seq<real>): real {
    if fs == [] then 0.0 else MaxOf(Latest(fs[..|fs| - 1]), fs[|fs| - 1])
  }

  /** `Latest` is at least 0 and every element, and is 0 or one of them. */
  lemma {:induction false} LatestBounds(fs: seq<real>)
    ensures Latest(fs) >= 0.0
    ensures forall i :: 0 <= i < |fs| ==> fs[i] <= Latest(fs)
    ensures Latest(fs) == 0.0 || exists i :: 0 <= i < |fs| && fs[i] == Latest(fs)
  {
    if fs != [] {
      var prefix := fs[..|fs| - 1];
      LatestBounds(prefix);
      assert forall i :: 0 <= i < |prefix| ==> prefix[i] == fs[i];
    }
  }

  /** `update_final_timestamp` on a subtree: a fixed length wins and the
      children are left alone; otherwise the children are recomputed first
      and the final timestamp becomes the larger of its old value and the
      latest recomputed child's (see `RecomputeBounds`). */
  function Recompute(s: Span): (r: Span)
    ensures r.length == s.length && r.hasPanel == s.hasPanel && |r.children| == |s.children|
    decreases s
  {
    if s.length.Some? then s.(final := s.length.value)
    else
      var kids := RecomputeKids(s.children, 0);
      s.(final := MaxOf(s.final, Latest(Finals(kids, |kids|))), children := kids)
  }

  /** With a fixed length the final timestamp is that length and nothing
      else changes; without one it never decreases, never falls below 0, is
      at least every recomputed child's and is the old value, 0 or one of
      the children's. */
  lemma RecomputeBounds(s: Span)
    ensures s.length.Some? ==> Recompute(s) == s.(final := s.length.value)
    ensures s.length.None? ==> Recompute(s).final >= s.final && Recompute(s).final >= 0.0
    ensures s.length.None? ==> forall i :: 0 <= i < |s.children| ==> Recompute(s).children[i].final <= Recompute(s).final
    ensures s.length.None? ==> Recompute(s).final == s.final || Recompute(s).final == 0.0
                               || exists i :: 0 <= i < |s.children| && Recompute(s).children[i].final == Recompute(s).final
  {
    if s.length.None? {
      var kids := RecomputeKids(s.children, 0);
      LatestBounds(Finals(kids, |kids|));
      FinalsAt(kids, |kids|);
    }
  }

  function RecomputeKids(cs: seq<Span>, i: nat): (r: seq<Span>)
    requires i <= |cs|
    ensures |r| == |cs| - i
    decreases cs, |cs| - i
  {
    if i == |cs| then []
    else [Recompute(cs[i])] + RecomputeKids(cs, i + 1)
  }

  /** One entry of `RecomputeKids(cs, 0)`. */
  lemma RecomputeKidAt(cs: seq<Span>, j: nat)
    requires j < |cs|
    ensures RecomputeKids(cs, 0)[j] == Recompute(cs[j])
  {
    RecomputeKidsAt(cs, 0);
  }

  lemma {:induction false} RecomputeKidsAt(cs: seq<Span>, i: nat)
    requires i <= |cs|
    ensures forall j :: 0 <= j < |cs| - i ==> RecomputeKids(cs, i)[j] == Recompute(cs[i + j])
    decreases |cs| - i
  {
    if i < |cs| {
      RecomputeKidsAt(cs, i + 1);
    }
  }

  /** Recomputing twice gives what recomputing once gives. */
  lemma {:induction false} RecomputeIdempotent(s: Span)
    ensures Recompute(Recompute(s)) == Recompute(s)
    decreases s
  {
    if s.length.None? {
      var r := Recompute(s);
      RecomputeBounds(s);
      var again := Recompute(r).children;
      RecomputeKidsAt(s.children, 0);
      RecomputeKidsAt(r.children, 0);
      assert r.children == RecomputeKids(s.children, 0);
      assert again == RecomputeKids(r.children, 0);
      forall j | 0 <= j < |s.children|
        ensures again[j] == r.children[j]
      {
        assert r.children[j] == Recompute(s.children[j]);
        RecomputeIdempotent(s.children[j]);
      }
      assert again == r.children;
    }
  }

  /** The final timestamps after one update pass over a subtree (`active`
      when it is playing or forced). A timeline with a panel recomputes its
      subtree first; then every child runs its own pass, forced. Written in
      closed form: `TickRecomputed` is a pass over a subtree that has just
      been recomputed (`PanelPass` unfolds it). */
  function TickSpans(s: Span, active: bool): (r: Span)
    ensures r.length == s.length && r.hasPanel == s.hasPanel && |r.children| == |s.children|
    decreases s, 1
  {
    if !active then s
    else if s.hasPanel then TickRecomputed(s)
    else s.(children := TickKids(s.children, 0))
  }

  function TickKids(cs: seq<Span>, i: nat): (r: seq<Span>)
    requires i <= |cs|
    ensures |r| == |cs| - i
    decreases cs, |cs| - i
  {
    if i == |cs| then []
    else [TickSpans(cs[i], true)] + TickKids(cs, i + 1)
  }

  lemma {:induction false} TickKidsAt(cs: seq<Span>, i: nat)
    requires i <= |cs|
    ensures forall j :: 0 <= j < |cs| - i ==> TickKids(cs, i)[j] == TickSpans(cs[i + j], true)
    decreases |cs| - i
  {
    if i < |cs| {
      TickKidsAt(cs, i + 1);
    }
  }

  lemma TickKidAt(cs: seq<Span>, j: nat)
    requires j < |cs|
    ensures TickKids(cs, 0)[j] == TickSpans(cs[j], true)
  {
    TickKidsAt(cs, 0);
  }

  function TickRecomputed(s: Span): (r: Span)
    ensures r.length == s.length && r.hasPanel == s.hasPanel && |r.children| == |s.children|
    ensures r.final == Recompute(s).final
    decreases s, 0
  {
    if s.length.Some? then s.(final := s.length.value, children := TickKids(s.children, 0))
    else Recompute(s).(children := TickRecomputedKids(s.children, 0))
  }

  function TickRecomputedKids(cs: seq<Span>, i: nat): (r: seq<Span>)
    requires i <= |cs|
    ensures |r| == |cs| - i
    decreases cs, |cs| - i
  {
    if i == |cs| then []
    else [TickRecomputed(cs[i])] + TickRecomputedKids(cs, i + 1)
  }

  lemma {:induction false} TickRecomputedKidsAt(cs: seq<Span>, i: nat)
    requires i <= |cs|
    ensures forall j :: 0 <= j < |cs| - i ==> TickRecomputedKids(cs, i)[j] == TickRecomputed(cs[i + j])
    decreases |cs| - i
  {
    if i < |cs| {
      TickRecomputedKidsAt(cs, i + 1);
    }
  }

  lemma {:induction false} TickRecomputedOfRecompute(s: Span)
    ensures TickRecomputed(Recompute(s)) == TickRecomputed(s)
    decreases s
  {
    if s.length.None? {
      var r := Recompute(s);
      var kids, want := TickRecomputedKids(r.children, 0), TickRecomputedKids(s.children, 0);
      RecomputeKidsAt(s.children, 0);
      assert r.children == RecomputeKids(s.children, 0);
      TickRecomputedKidsAt(r.children, 0);
      TickRecomputedKidsAt(s.children, 0);
      forall j | 0 <= j < |s.children|
        ensures kids[j] == want[j]
      {
        assert r.children[j] == Recompute(s.children[j]);
        TickRecomputedOfRecompute(s.children[j]);
      }
      assert kids == want;
      SameKidsSameTick(s);
    }
  }

  /** The step that closes `TickRecomputedOfRecompute`: recomputing is
      idempotent, so only the children's passes can differ. */
  lemma SameKidsSameTick(s: Span)
    requires s.length.None?
    requires TickRecomputedKids(Recompute(s).children, 0) == TickRecomputedKids(s.children, 0)
    ensures TickRecomputed(Recompute(s)) == TickRecomputed(s)
  {
    RecomputeIdempotent(s);
  }

  /** A pass over a freshly recomputed subtree is the closed form. */
  lemma {:induction false} TickAfterRecompute(s: Span)
    ensures TickSpans(Recompute(s), true) == TickRecomputed(s)
    decreases s
  {
    var r := Recompute(s);
    if s.length.Some? {
    } else if s.hasPanel {
      TickRecomputedOfRecompute(s);
    } else {
      var kids := TickKids(r.children, 0);
      RecomputeKidsAt(s.children, 0);
      assert r.children == RecomputeKids(s.children, 0);
      TickKidsAt(r.children, 0);
      TickRecomputedKidsAt(s.children, 0);
      forall j | 0 <= j < |s.children|
        ensures kids[j] == TickRecomputedKids(s.children, 0)[j]
      {
        assert r.children[j] == Recompute(s.children[j]);
        TickAfterRecompute(s.children[j]);
      }
      assert kids == TickRecomputedKids(s.children, 0);
    }
  }

  /** What a timeline with a panel does in its pass: recompute its subtree,
      then run every child's pass on the recomputed children. */
  lemma PanelPass(s: Span)
    requires s.hasPanel
    ensures TickSpans(s, true) == Recompute(s).(children := TickKids(Recompute(s).children, 0))
  {
    var r := Recompute(s);
    if s.length.None? {
      var kids := TickKids(r.children, 0);
      RecomputeKidsAt(s.children, 0);
      assert r.children == RecomputeKids(s.children, 0);
      TickKidsAt(r.children, 0);
      TickRecomputedKidsAt(s.children, 0);
      forall j | 0 <= j < |s.children|
        ensures kids[j] == TickRecomputedKids(s.children, 0)[j]
      {
        assert r.children[j] == Recompute(s.children[j]);
        TickAfterRecompute(s.children[j]);
      }
      assert kids == TickRecomputedKids(s.children, 0);
    }
  }

  /** `set_keyframe`'s effect on the final timestamps: a keyframe later than
      the final timestamp becomes the final timestamp, and a timeline with a
      panel then recomputes its subtree. */
  function KeyframeSpans(s: Span, t: real): (r: Span)
    ensures t <= s.final ==> r == s
    ensures !s.hasPanel ==> r == s.(final := MaxOf(s.final, t))
    ensures s.length.None? ==> r.final >= s.final && r.final >= t
    ensures s.hasPanel && s.length.Some? && t > s.final ==> r.final == s.length.value
  {
    if t > s.final then
      var s1 := s.(final := t);
      if s.hasPanel then Recompute(s1) else s1
    else s
  }

  // ---------------------------------------------------------------------
  // A whole `update_animation` call

  /** What an update returns (its events and whether it completed) and the
      subtree it leaves behind. */
  datatype Outcome<O> = Outcome(effects: seq<Event<O>>, ok: bool, node: Node<O>, spans: Span)

  /** An update pass at a resolved time `t`. */
  function Pass<O>(n: Node<O>, sp: Span, t: real, force: bool, parent: Option<bool>): (r: Outcome<O>)
    requires Settled(n)
    ensures r.ok && Settled(r.node) && r.node.clock == n.clock && r.node.loop == n.loop
    ensures |r.node.children| == |n.children|
  {
    Outcome(TickEffects(n, t, force, parent), true, TickNode(n, t, force, parent),
            TickSpans(sp, n.clock.playing || force))
  }

  /** The animation part of a pass over a settled subtree: nothing unless
      playing or forced; otherwise the node's own values and its children's
      passes. */
  function AnimateOutcome<O>(n: Node<O>, sp: Span, t: real, inScene: bool, force: bool): (r: Outcome<O>)
    requires Settled(n)
  {
    if !(n.clock.playing || force) then Outcome([], true, n, sp)
    else
      Outcome(OwnEffects(n, t, inScene) + ChildrenEffects(n.children, 0, t, inScene), true,
              n.(children := TickChildren(n.children, 0, t, inScene)),
              sp.(children := TickKids(sp.children, 0)))
  }

  /** A pass once the final timestamps are up to date: the scene event,
      then the animation. */
  function VisitOutcome<O>(n: Node<O>, sp: Span, t: real, force: bool, parent: Option<bool>): (r: Outcome<O>)
    requires Settled(n)
  {
    var inScene := InScene(n, t, parent);
    var n1 := n.(addedToScene := SceneFlag(n.scene, n.addedToScene, inScene));
    var a := AnimateOutcome(n1, sp, t, inScene, force);
    a.(effects := SceneEvent(n.owner, n.scene, n.addedToScene, inScene) + a.effects)
  }

  /** A pass is the recomputation (with a panel, when playing or forced)
      followed by the visit. */
  lemma PassIsVisit<O>(n: Node<O>, sp: Span, t: real, force: bool, parent: Option<bool>)
    requires Settled(n)
    ensures Pass(n, sp, t, force, parent)
            == VisitOutcome(n, if sp.hasPanel && (n.clock.playing || force) then Recompute(sp) else sp, t, force, parent)
  {
    if n.clock.playing || force {
      var inScene := InScene(n, t, parent);
      var n1 := n.(addedToScene := SceneFlag(n.scene, n.addedToScene, inScene));
      assert OwnEffects(n1, t, inScene) == OwnEffects(n, t, inScene);
      if sp.hasPanel {
        PanelPass(sp);
      }
    }
  }

  /** The clock has run past the final timestamp and no time was given. */
  predicate Overshoots<O>(n: Node<O>, sp: Span, t: Option<real>, now: real) {
    t.None? && Read(n.clock, now) > sp.final
  }

  /** `update_animation(t, force, parent)` on a settled subtree at wall time
      `now`. Without a time it reads the clock. Past the final timestamp it
      seeks to 0 when looping and to the final timestamp otherwise, and then
      pauses through the playback panel, failing when there is none; the
      pass that follows still uses the time that was read. */
  function Update<O>(n: Node<O>, sp: Span, t: Option<real>, force: bool, parent: Option<bool>, now: real): (r: Outcome<O>)
    requires Settled(n) && n.clock.speed > 0.0 && sp.final >= 0.0
    ensures r.ok <==> !(Overshoots(n, sp, t, now) && !n.loop && !sp.hasPanel)
    ensures Settled(r.node) && r.node.clock.speed == n.clock.speed && |r.node.children| == |n.children|
    decreases if Overshoots(n, sp, t, now) then 3 else 0
  {
    if t.Some? then Pass(n, sp, t.value, force, parent)
    else
      var at := Read(n.clock, now);
      var n1 := n.(clock := AfterRead(n.clock, now));
      if at <= sp.final then Pass(n1, sp, at, force, parent)
      else OvershootOutcome(n1, sp, at, force, parent, now)
  }

  /** An update whose clock has run past the end, at the time `at` that was
      read: a looping timeline seeks to 0, any other to its end; without a
      panel a timeline that is not looping fails there, with one it is
      paused; then the pass still runs at the unclamped `at`. */
  function OvershootOutcome<O>(n: Node<O>, sp: Span, at: real, force: bool, parent: Option<bool>, now: real)
    : (r: Outcome<O>)
    requires Settled(n) && n.clock.speed > 0.0 && sp.final >= 0.0
    ensures r.ok <==> n.loop || sp.hasPanel
    ensures Settled(r.node) && r.node.clock.speed == n.clock.speed && r.node.loop == n.loop
    ensures |r.node.children| == |n.children|
    decreases 2
  {
    var first := SeekOutcome(n, sp, if n.loop then 0.0 else sp.final, now);
    if !first.ok then first
    else if !n.loop && !sp.hasPanel then first.(ok := false)
    else
      var n2 := if n.loop then first.node else first.node.(clock := PauseClock(first.node.clock, now));
      var second := Pass(n2, first.spans, at, force, parent);
      second.(effects := first.effects + second.effects)
  }

  /** `seek(t)`: move the clock to the clamped time; when not playing, also
      run a forced update from the new clock. */
  function SeekOutcome<O>(n: Node<O>, sp: Span, t: real, now: real): (r: Outcome<O>)
    requires Settled(n) && n.clock.speed > 0.0 && sp.final >= 0.0
    ensures r.ok && Settled(r.node) && r.node.loop == n.loop
    ensures r.node.clock == SeekClock(n.clock, t, sp.final, now) && |r.node.children| == |n.children|
    decreases 1
  {
    var n1 := n.(clock := SeekClock(n.clock, t, sp.final, now));
    if n.clock.playing then Outcome([], true, n1, sp)
    else Update(n1, sp, None, true, None, now)
  }

  /** A looping timeline that is playing past its end starts over: it keeps
      playing and its clock reads 0; the pass still applies values at the
      time that was read. */
  lemma LoopWrapsToStart<O>(n: Node<O>, sp: Span, force: bool, parent: Option<bool>, now: real)
    requires Settled(n) && n.clock.speed > 0.0 && sp.final >= 0.0
    requires n.loop && n.clock.playing && Read(n.clock, now) > sp.final
    ensures var r := Update(n, sp, None, force, parent, now);
      r.ok && r.node.clock.playing && Read(r.node.clock, now) == 0.0
      && AllAt(r.effects, Read(n.clock, now))
  {
    var at := Read(n.clock, now);
    var n1 := n.(clock := AfterRead(n.clock, now));
    TickAppliesAt(SeekOutcome(n1, sp, 0.0, now).node, at, force, parent);
    ConcatKeeps([], TickEffects(SeekOutcome(n1, sp, 0.0, now).node, at, force, parent), at);
  }

  /** A timeline with a playback panel that is not looping stops at its end:
      after an update past the final timestamp it is paused and its clock
      reads the final timestamp from then on. */
  lemma EndPausesAtFinal<O>(n: Node<O>, sp: Span, force: bool, parent: Option<bool>, now: real)
    requires Settled(n) && n.clock.speed > 0.0 && sp.final >= 0.0
    requires !n.loop && sp.hasPanel && Read(n.clock, now) > sp.final
    ensures var r := Update(n, sp, None, force, parent, now);
      r.ok && !r.node.clock.playing && forall later :: Read(r.node.clock, later) == sp.final
  {
  }

  /** Without a playback panel, a timeline that is not looping cannot stop
      at its end: the update past the final timestamp fails. */
  lemma OvershootWithoutPanelFails<O>(n: Node<O>, sp: Span, force: bool, parent: Option<bool>, now: real)
    requires Settled(n) && n.clock.speed > 0.0 && sp.final >= 0.0
    requires !n.loop && !sp.hasPanel && Read(n.clock, now) > sp.final
    ensures !Update(n, sp, None, force, parent, now).ok
  {
  }

  /** An update with a given time, or one whose clock has not run past the
      end, applies every value at that one time. */
  lemma UpdateAppliesAtOneTime<O>(n: Node<O>, sp: Span, t: Option<real>, force: bool, parent: Option<bool>, now: real)
    requires Settled(n) && n.clock.speed > 0.0 && sp.final >= 0.0
    requires !Overshoots(n, sp, t, now)
    ensures AllAt(Update(n, sp, t, force, parent, now).effects, if t.Some? then t.value else Read(n.clock, now))
  {
    if t.Some? {
      TickAppliesAt(n, t.value, force, parent);
    } else {
      TickAppliesAt(n.(clock := AfterRead(n.clock, now)), Read(n.clock, now), force, parent);
    }
  }

  // ---------------------------------------------------------------------
  // What an update leaves alone

  /** `after` differs from `before` at most in the clock, the scene flag and
      the children. */
  ghost predicate SameSetup<O>(before: Node<O>, after: Node<O>) {
    after == before.(clock := after.clock, addedToScene := after.addedToScene, children := after.children)
  }

  /** How the final timestamp may move: not at all without a panel, and
      never down without a fixed length. */
  predicate KeepsFinal(before: Span, after: Span) {
    after.length == before.length && after.hasPanel == before.hasPanel
    && (!before.hasPanel ==> after.final == before.final)
    && (before.length.None? ==> after.final >= before.final)
    && (WellTimed(before) ==> WellTimed(after))
  }

  /** Final timestamps and fixed lengths that are not negative, as they
      are for every timeline. */
  predicate WellTimed(sp: Span) {
    sp.final >= 0.0 && (sp.length.None? || sp.length.value >= 0.0)
  }

  lemma PassKeeps<O>(n: Node<O>, sp: Span, t: real, force: bool, parent: Option<bool>)
    requires Settled(n)
    ensures SameSetup(n, Pass(n, sp, t, force, parent).node)
    ensures KeepsFinal(sp, Pass(n, sp, t, force, parent).spans)
  {
    if sp.hasPanel && (n.clock.playing || force) {
      RecomputeBounds(sp);
    }
  }

  /** A seek changes nothing but the clock, the scene flags and the final
      timestamps, and those only as `KeepsFinal` allows: the update it runs
      when not playing starts inside `[0, final]`. */
  lemma SeekKeeps<O>(n: Node<O>, sp: Span, t: real, now: real)
    requires Settled(n) && n.clock.speed > 0.0 && sp.final >= 0.0
    ensures SameSetup(n, SeekOutcome(n, sp, t, now).node)
    ensures KeepsFinal(sp, SeekOutcome(n, sp, t, now).spans)
  {
    var n1 := n.(clock := SeekClock(n.clock, t, sp.final, now));
    if !n.clock.playing {
      assert !Overshoots(n1, sp, None, now);
      PassKeeps(n1.(clock := AfterRead(n1.clock, now)), sp, Read(n1.clock, now), true, None);
    }
  }

  /** An update never touches the keyframes, the interpolators, the
      members, the loop flag or the scene window; without a panel it keeps
      the final timestamp, and without a fixed length it never lowers it. */
  lemma UpdateKeeps<O>(n: Node<O>, sp: Span, t: Option<real>, force: bool, parent: Option<bool>, now: real)
    requires Settled(n) && n.clock.speed > 0.0 && sp.final >= 0.0
    ensures SameSetup(n, Update(n, sp, t, force, parent, now).node)
    ensures KeepsFinal(sp, Update(n, sp, t, force, parent, now).spans)
  {
    if t.Some? {
      PassKeeps(n, sp, t.value, force, parent);
    } else {
      var at := Read(n.clock, now);
      var n1 := n.(clock := AfterRead(n.clock, now));
      if at <= sp.final {
        PassKeeps(n1, sp, at, force, parent);
      } else {
        OvershootKeeps(n1, sp, at, force, parent, now);
      }
    }
  }

  /** The overshoot branch of `UpdateKeeps`. */
  lemma OvershootKeeps<O>(n: Node<O>, sp: Span, at: real, force: bool, parent: Option<bool>, now: real)
    requires Settled(n) && n.clock.speed > 0.0 && sp.final >= 0.0
    ensures SameSetup(n, OvershootOutcome(n, sp, at, force, parent, now).node)
    ensures KeepsFinal(sp, OvershootOutcome(n, sp, at, force, parent, now).spans)
  {
    var first := SeekOutcome(n, sp, if n.loop then 0.0 else sp.final, now);
    SeekKeeps(n, sp, if n.loop then 0.0 else sp.final, now);
    if n.loop || sp.hasPanel {
      var n2 := if n.loop then first.node else first.node.(clock := PauseClock(first.node.clock, now));
      PassKeeps(n2, first.spans, at, force, parent);
    }
  }

  // ---------------------------------------------------------------------
  // Playback control

  /** `play`: nothing while playing. Otherwise a clock that has reached the
      final timestamp first seeks to 0 (running a forced update); then the
      final timestamps are recomputed and the clock starts from its stored
      time. */
  function PlayOutcome<O>(n: Node<O>, sp: Span, now: real): (r: Outcome<O>)
    requires Settled(n) && n.clock.speed > 0.0 && sp.final >= 0.0
    ensures SameSetup(n, r.node)
    ensures r.spans.length == sp.length && (sp.length.None? ==> r.spans.final >= sp.final)
    ensures n.clock.playing ==> r.effects == [] && r.node == n && r.spans == sp
  {
    if n.clock.playing then Outcome([], true, n, sp)
    else
      var first := if n.clock.last >= sp.final then SeekOutcome(n, sp, 0.0, now) else Outcome([], true, n, sp);
      SeekKeeps(n, sp, 0.0, now);
      RecomputeBounds(first.spans);
      if !first.ok then first
      else
        var c := first.node.clock;
        Outcome(first.effects, true, first.node.(clock := c.(started := now - c.last / c.speed, playing := true)),
                Recompute(first.spans))
  }

  /** `play` leaves the clock as `PlayClock` says (see `PlayThenRead` for
      what it reads afterwards). */
  lemma PlayStartsClock<O>(n: Node<O>, sp: Span, now: real)
    requires Settled(n) && n.clock.speed > 0.0 && sp.final >= 0.0
    ensures PlayOutcome(n, sp, now).ok
    ensures PlayOutcome(n, sp, now).node.clock == PlayClock(n.clock, sp.final, now)
  {
    if !n.clock.playing && n.clock.last >= sp.final {
      var first := SeekOutcome(n, sp, 0.0, now);
      assert first.node.clock == n.clock.(last := 0.0);
    }
  }

  /** `stop`: rewind the stored time to 0, stop playing and run a forced
      update. */
  function StopOutcome<O>(n: Node<O>, sp: Span, now: real): (r: Outcome<O>)
    requires Settled(n) && n.clock.speed > 0.0 && sp.final >= 0.0
    ensures SameSetup(n, r.node) && KeepsFinal(sp, r.spans)
  {
    UpdateKeeps(n.(clock := n.clock.(last := 0.0, playing := false)), sp, None, true, None, now);
    Update(n.(clock := n.clock.(last := 0.0, playing := false)), sp, None, true, None, now)
  }

  /** After `stop` the timeline is stopped, its clock reads 0 from then on,
      and the update it ran applied every value at time 0. */
  lemma StopRewinds<O>(n: Node<O>, sp: Span, now: real)
    requires Settled(n) && n.clock.speed > 0.0 && sp.final >= 0.0
    ensures StopOutcome(n, sp, now).ok
    ensures IsStopped(StopOutcome(n, sp, now).node.clock)
    ensures forall later :: Read(StopOutcome(n, sp, now).node.clock, later) == 0.0
    ensures AllAt(StopOutcome(n, sp, now).effects, 0.0)
  {
    var n1 := n.(clock := n.clock.(last := 0.0, playing := false));
    UpdateAppliesAtOneTime(n1, sp, None, true, None, now);
  }

  /** `restart`: set the stored time to 0, mark the clock playing and run a
      forced update. The start time is left as it was. */
  function RestartOutcome<O>(n: Node<O>, sp: Span, now: real): (r: Outcome<O>)
    requires Settled(n) && n.clock.speed > 0.0 && sp.final >= 0.0
    ensures SameSetup(n, r.node) && KeepsFinal(sp, r.spans)
  {
    UpdateKeeps(n.(clock := n.clock.(last := 0.0, playing := true)), sp, None, true, None, now);
    Update(n.(clock := n.clock.(last := 0.0, playing := true)), sp, None, true, None, now)
  }

  /** `restart` does not rewind: the stored 0 is overwritten by the very
      next read, so (within the final timestamp) the clock reads the time
      elapsed since the old start, and the update applies values there. */
  lemma RestartKeepsStartTime<O>(n: Node<O>, sp: Span, now: real)
    requires Settled(n) && n.clock.speed > 0.0 && sp.final >= 0.0
    requires (now - n.clock.started) * n.clock.speed <= sp.final
    ensures RestartOutcome(n, sp, now).ok && RestartOutcome(n, sp, now).node.clock.playing
    ensures Read(RestartOutcome(n, sp, now).node.clock, now) == (now - n.clock.started) * n.clock.speed
    ensures AllAt(RestartOutcome(n, sp, now).effects, (now - n.clock.started) * n.clock.speed)
  {
    var n1 := n.(clock := n.clock.(last := 0.0, playing := true));
    var at := Read(n1.clock, now);
    assert at == (now - n.clock.started) * n.clock.speed;
    assert RestartOutcome(n, sp, now) == Pass(n1.(clock := AfterRead(n1.clock, now)), sp, at, true, None);
    UpdateAppliesAtOneTime(n1, sp, None, true, None, now);
  }

  /** The `speed` setter: read the clock; a speed that is not positive is
      ignored; otherwise adopt it, restart the wall-clock reference at `now`
      and seek back to the time read. */
  function SpeedOutcome<O>(n: Node<O>, sp: Span, speed: real, now: real): (r: Outcome<O>)
    requires Settled(n) && n.clock.speed > 0.0 && sp.final >= 0.0
    ensures SameSetup(n, r.node) && KeepsFinal(sp, r.spans)
  {
    var current := Read(n.clock, now);
    var c := AfterRead(n.clock, now);
    if speed <= 0.0 then Outcome([], true, n.(clock := c), sp)
    else
      SeekKeeps(n.(clock := c.(speed := speed, started := now)), sp, current, now);
      SeekOutcome(n.(clock := c.(speed := speed, started := now)), sp, current, now)
  }

  /** The `speed` setter leaves the clock as `SpeedClock` says. */
  lemma SpeedKeepsTime<O>(n: Node<O>, sp: Span, speed: real, now: real)
    requires Settled(n) && n.clock.speed > 0.0 && sp.final >= 0.0
    ensures SpeedOutcome(n, sp, speed, now).ok
    ensures SpeedOutcome(n, sp, speed, now).node.clock == SpeedClock(n.clock, speed, sp.final, now)
  {
  }

  /** `seek_percent`: the time `percent` percent of the way to the final
      timestamp. */
  function PercentTime(percent: real, final: real): (t: real)
    ensures 0.0 <= percent <= 100.0 && final >= 0.0 ==> 0.0 <= t <= final
  {
    var t := percent * final / 100.0;
    assert 0.0 <= percent <= 100.0 && final >= 0.0 ==> percent * final <= 100.0 * final;
    t
  }

  /** A seek to a percentage in `[0, 100]` is not clamped: the clock then
      reads exactly that fraction of the final timestamp. */
  lemma SeekPercentLands<O>(n: Node<O>, sp: Span, percent: real, now: real)
    requires Settled(n) && n.clock.speed > 0.0 && sp.final >= 0.0
    requires 0.0 <= percent <= 100.0
    ensures Read(SeekOutcome(n, sp, PercentTime(percent, sp.final), now).node.clock, now)
            == percent * sp.final / 100.0
  {
  }

  // ---------------------------------------------------------------------
  // Keyframes

  /** The subtree after `set_keyframe`'s writes: the keyframe is stored, the
      channel's interpolator bound, and a camera keyframe marks the timeline
      camera-animated. */
  function KeyframeNode<O>(n: Node<O>, space: Space, attrib: string, t: real, k: Keyframe): (r: Node<O>)
    ensures r.keyframes.Get(space) == StoreKeyframe(n.keyframes.Get(space), attrib, t, k)
    ensures r.interpolators.Get(space) == BindOnKeyframe(n.interpolators.Get(space), attrib)
    ensures forall other: Space :: other != space ==>
              r.keyframes.Get(other) == n.keyframes.Get(other) && r.interpolators.Get(other) == n.interpolators.Get(other)
  {
    var (kf, ip) := StoredTables(n.keyframes, n.interpolators, space, attrib, t, k);
    n.(keyframes := kf, interpolators := ip, cameraAnimated := n.cameraAnimated || space == Camera)
  }

  /** Both tables after `set_keyframe` has written them. */
  function StoredTables(kf: Spaces<map<string, Channel>>, ip: Spaces<map<string, Interpolator>>, space: Space,
                        attrib: string, t: real, k: Keyframe): (Spaces<map<string, Channel>>, Spaces<map<string, Interpolator>>)
  {
    (kf.Put(space, StoreKeyframe(kf.Get(space), attrib, t, k)), ip.Put(space, BindOnKeyframe(ip.Get(space), attrib)))
  }

  /** Only keyframed channels have interpolators, before and after a
      keyframe is stored. */
  predicate Covered(kf: Spaces<map<string, Channel>>, ip: Spaces<map<string, Interpolator>>)
  {
    ip.attribs.Keys <= kf.attribs.Keys && ip.camera.Keys <= kf.camera.Keys
  }

  /** `set_keyframe(attrib, t, k)`: the writes, the final-timestamp update,
      and, for a positive `t`, a forced update at the clock's time. */
  function KeyframeOutcome<O>(n: Node<O>, sp: Span, space: Space, attrib: string, t: real, k: Keyframe, now: real)
    : (r: Outcome<O>)
    requires Settled(KeyframeNode(n, space, attrib, t, k)) && n.clock.speed > 0.0 && sp.final >= 0.0
    requires sp.length.None? || sp.length.value >= 0.0
    ensures r.ok <==> !(t > 0.0 && Read(n.clock, now) > KeyframeSpans(sp, t).final && !n.loop && !sp.hasPanel)
  {
    var n1 := KeyframeNode(n, space, attrib, t, k);
    var s1 := KeyframeSpans(sp, t);
    if t > 0.0 then Update(n1, s1, None, true, None, now) else Outcome([], true, n1, s1)
  }

  /** After `set_keyframe` the keyframe sits at (`space`, `attrib`, `t`),
      the rest of both tables is as before, the attribute is interpolatable
      (linearly when its channel is new, with its old interpolator
      otherwise), and the final timestamp has caught up with `t`: exactly
      `max(final, t)` without a panel, at least that without a fixed
      length. */
  lemma SetKeyframeStores<O>(n: Node<O>, sp: Span, space: Space, attrib: string, t: real, k: Keyframe, now: real)
    requires Settled(KeyframeNode(n, space, attrib, t, k)) && n.clock.speed > 0.0 && sp.final >= 0.0
    requires sp.length.None? || sp.length.value >= 0.0
    ensures var r := KeyframeOutcome(n, sp, space, attrib, t, k, now);
      r.node.keyframes == KeyframeNode(n, space, attrib, t, k).keyframes
      && r.node.interpolators == KeyframeNode(n, space, attrib, t, k).interpolators
      && attrib in r.node.interpolators.Get(space)
      && (attrib !in n.interpolators.Get(space) ==> r.node.interpolators.Get(space)[attrib] == DefaultInterpolator)
      && (attrib in n.interpolators.Get(space) ==> r.node.interpolators.Get(space) == n.interpolators.Get(space))
      && (!sp.hasPanel ==> r.spans.final == MaxOf(sp.final, t))
      && (sp.length.None? ==> r.spans.final >= sp.final && r.spans.final >= t)
  {
    var n1 := KeyframeNode(n, space, attrib, t, k);
    var s1 := KeyframeSpans(sp, t);
    if t > 0.0 {
      UpdateKeeps(n1, s1, None, true, None, now);
    }
  }

  /** `set_keyframe` can run on `n` in `space`: the subtree is settled,
      and a camera keyframe does not leave the timeline waiting for the
      scene's camera. */
  predicate ReadyFor<O>(n: Node<O>, space: Space) {
    Settled(n) && !(space == Camera && n.camera.None? && n.scene.Some?)
  }

  /** `set_keyframe` on a timeline that is ready for it: its writes leave a
      settled subtree, and its outcome is ready for the next keyframe in
      the same namespace. Besides the tables and the camera mark, only the
      clock, the scene flags and the children change, and the final
      timestamp moves as `SetKeyframeStores` says. */
  lemma KeyframeOutcomeKeeps<O>(n: Node<O>, sp: Span, space: Space, attrib: string, t: real, k: Keyframe, now: real)
    requires ReadyFor(n, space) && n.clock.speed > 0.0 && WellTimed(sp)
    ensures Settled(KeyframeNode(n, space, attrib, t, k))
    ensures var r := KeyframeOutcome(n, sp, space, attrib, t, k, now);
      ReadyFor(r.node, space) && r.node.clock.speed == n.clock.speed && WellTimed(r.spans)
      && SameSetup(KeyframeNode(n, space, attrib, t, k), r.node)
      && r.spans.length == sp.length && r.spans.hasPanel == sp.hasPanel
      && (!sp.hasPanel ==> r.spans.final == MaxOf(sp.final, t))
      && (sp.length.None? ==> r.spans.final >= sp.final && r.spans.final >= t)
  {
    var n1 := KeyframeNode(n, space, attrib, t, k);
    assert n1.children == n.children;
    var s1 := KeyframeSpans(sp, t);
    if t > sp.final && sp.hasPanel {
      RecomputeBounds(sp.(final := t));
    }
    assert WellTimed(s1);
    SetKeyframeStores(n, sp, space, attrib, t, k, now);
    if t > 0.0 {
      UpdateKeeps(n1, s1, None, true, None, now);
    }
  }

  /** An outcome with `es` emitted before its own events. */
  function Prefixed<O>(es: seq<Event<O>>, r: Outcome<O>): (p: Outcome<O>)
    ensures p.ok == r.ok && p.node == r.node && p.spans == r.spans
    ensures |p.effects| == |es| + |r.effects| && p.effects[..|es|] == es
  {
    r.(effects := es + r.effects)
  }

  lemma PrefixedTwice<O>(a: seq<Event<O>>, b: seq<Event<O>>, r: Outcome<O>)
    ensures Prefixed(a, Prefixed(b, r)) == Prefixed(a + b, r)
  {
    assert a + (b + r.effects) == (a + b) + r.effects;
  }

  /** `set_keyframes`: `set_keyframe` on every entry in order, each on the
      outcome of the one before, stopping at the first that fails. */
  function KeyframesOutcome<O>(n: Node<O>, sp: Span, space: Space, attrib: string, ks: seq<(real, seq<real>)>, now: real)
    : Outcome<O>
    requires ReadyFor(n, space) && n.clock.speed > 0.0 && WellTimed(sp)
    decreases |ks|
  {
    if |ks| == 0 then Outcome([], true, n, sp)
    else
      KeyframeOutcomeKeeps(n, sp, space, attrib, ks[0].0, Plain(ks[0].1), now);
      var first := KeyframeOutcome(n, sp, space, attrib, ks[0].0, Plain(ks[0].1), now);
      if !first.ok then first
      else Prefixed(first.effects, KeyframesOutcome(first.node, first.spans, space, attrib, ks[1..], now))
  }

  /** One step of `KeyframesOutcome` over the entries from `i` on. */
  lemma KeyframesAdvance<O>(n: Node<O>, sp: Span, space: Space, attrib: string, ks: seq<(real, seq<real>)>, i: nat,
                            now: real)
    requires ReadyFor(n, space) && n.clock.speed > 0.0 && WellTimed(sp) && i < |ks|
    ensures Settled(KeyframeNode(n, space, attrib, ks[i].0, Plain(ks[i].1)))
    ensures var first := KeyframeOutcome(n, sp, space, attrib, ks[i].0, Plain(ks[i].1), now);
      ReadyFor(first.node, space) && first.node.clock.speed > 0.0 && WellTimed(first.spans)
      && KeyframesOutcome(n, sp, space, attrib, ks[i..], now)
         == if first.ok then Prefixed(first.effects, KeyframesOutcome(first.node, first.spans, space, attrib, ks[i + 1..], now))
            else first
  {
    KeyframeOutcomeKeeps(n, sp, space, attrib, ks[i].0, Plain(ks[i].1), now);
    assert ks[i..][0] == ks[i];
    assert ks[i..][1..] == ks[i + 1..];
  }

  /** The fold after one more entry, once `done` was emitted before it:
      carried on when the entry's `set_keyframe` succeeded, finished when it
      failed. */
  lemma KeyframesCarry<O>(full: Outcome<O>, done: seq<Event<O>>, n: Node<O>, sp: Span, space: Space, attrib: string,
                          ks: seq<(real, seq<real>)>, i: nat, now: real, r: Outcome<O>)
    requires ReadyFor(n, space) && n.clock.speed > 0.0 && WellTimed(sp) && i < |ks|
    requires full == Prefixed(done, KeyframesOutcome(n, sp, space, attrib, ks[i..], now))
    requires Settled(KeyframeNode(n, space, attrib, ks[i].0, Plain(ks[i].1))) ==>
               r == KeyframeOutcome(n, sp, space, attrib, ks[i].0, Plain(ks[i].1), now)
    ensures r.ok ==> ReadyFor(r.node, space) && r.node.clock.speed > 0.0 && WellTimed(r.spans)
                     && full == Prefixed(done + r.effects, KeyframesOutcome(r.node, r.spans, space, attrib, ks[i + 1..], now))
    ensures !r.ok ==> full == r.(effects := done + r.effects)
  {
    KeyframesAdvance(n, sp, space, attrib, ks, i, now);
    if r.ok {
      PrefixedTwice(done, r.effects, KeyframesOutcome(r.node, r.spans, space, attrib, ks[i + 1..], now));
    }
  }

  /** The fold over all entries, as the loop over them starts and ends. */
  lemma KeyframesBounds<O>(n: Node<O>, sp: Span, space: Space, attrib: string, ks: seq<(real, seq<real>)>, now: real,
                           es: seq<Event<O>>)
    requires ReadyFor(n, space) && n.clock.speed > 0.0 && WellTimed(sp)
    ensures KeyframesOutcome(n, sp, space, attrib, ks, now) == Prefixed([], KeyframesOutcome(n, sp, space, attrib, ks[0..], now))
    ensures Prefixed(es, KeyframesOutcome(n, sp, space, attrib, ks[|ks|..], now)) == Outcome(es, true, n, sp)
  {
    assert ks[0..] == ks;
    assert es + [] == es;
  }

  /** The latest of `f` and the entries' timestamps. */
  function LatestStamp(f: real, ks: seq<(real, seq<real>)>): (m: real)
    ensures m >= f && forall j :: 0 <= j < |ks| ==> m >= ks[j].0
    ensures m == f || exists j :: 0 <= j < |ks| && m == ks[j].0
    decreases |ks|
  {
    if |ks| == 0 then f
    else
      var m := LatestStamp(MaxOf(f, ks[0].0), ks[1..]);
      assert forall j :: 1 <= j < |ks| ==> ks[j] == ks[1..][j - 1];
      m
  }

  /** `set_keyframes` on a ready timeline touches only the tables, the
      camera mark (set by any camera entry), the clock, the scene flags and
      the children, and keeps the clock's speed. The final timestamp never
      decreases without a fixed length and then, when every entry was
      stored, reaches every entry's timestamp; without a panel it becomes
      the latest of the old one and the entries'. */
  lemma {:induction false} KeyframesKeeps<O>(n: Node<O>, sp: Span, space: Space, attrib: string,
                                            ks: seq<(real, seq<real>)>, now: real)
    requires ReadyFor(n, space) && n.clock.speed > 0.0 && WellTimed(sp)
    ensures var r := KeyframesOutcome(n, sp, space, attrib, ks, now);
      r.node == n.(keyframes := r.node.keyframes, interpolators := r.node.interpolators,
                   cameraAnimated := n.cameraAnimated || (|ks| > 0 && space == Camera),
                   clock := r.node.clock, addedToScene := r.node.addedToScene, children := r.node.children)
      && r.node.clock.speed == n.clock.speed
      && r.spans.length == sp.length && r.spans.hasPanel == sp.hasPanel
      && (sp.length.None? ==> r.spans.final >= sp.final)
      && (r.ok && sp.length.None? ==> forall j :: 0 <= j < |ks| ==> r.spans.final >= ks[j].0)
      && (r.ok && !sp.hasPanel ==> r.spans.final == LatestStamp(sp.final, ks))
    decreases |ks|
  {
    if |ks| > 0 {
      KeyframeOutcomeKeeps(n, sp, space, attrib, ks[0].0, Plain(ks[0].1), now);
      var first := KeyframeOutcome(n, sp, space, attrib, ks[0].0, Plain(ks[0].1), now);
      if first.ok {
        KeyframesKeeps(first.node, first.spans, space, attrib, ks[1..], now);
        assert forall j :: 1 <= j < |ks| ==> ks[j] == ks[1..][j - 1];
      }
    }
  }

  // ---------------------------------------------------------------------
  // Joining a scene

  /** Every static actor handed to the renderer, in order. */
  function StaticAdds<O>(owner: O, actors: seq<Actor>): seq<Event<O>> {
    seq(|actors|, i requires 0 <= i < |actors| => RendererAdd(owner, actors[i]))
  }

  /** The subtree can join a scene: every timeline's speed is positive and
      its final timestamp not negative, the spans have the subtree's shape,
      and no timeline animates a camera it does not have yet (it would fetch
      its scene's camera on joining). */
  predicate Joinable<O>(n: Node<O>, sp: Span)
    decreases n
  {
    n.clock.speed > 0.0 && sp.final >= 0.0 && !(n.camera.None? && n.cameraAnimated)
    && |sp.children| == |n.children|
    && forall i :: 0 <= i < |n.children| ==> Joinable(n.children[i], sp.children[i])
  }

  predicate JoinableKids<O>(cs: seq<Node<O>>, ss: seq<Span>) {
    |cs| == |ss| && forall i :: 0 <= i < |cs| ==> Joinable(cs[i], ss[i])
  }

  /** The timeline's own update on joining fails: its clock has run past the
      end and it neither loops nor has a panel to pause. */
  predicate OwnStall<O>(n: Node<O>, sp: Span, now: real) {
    Read(n.clock, now) > sp.final && !n.loop && !sp.hasPanel
  }

  /** Some timeline of the subtree stalls on joining. */
  predicate Stalls<O>(n: Node<O>, sp: Span, now: real)
    decreases n, 1
  {
    OwnStall(n, sp, now) || KidStalls(n, sp, now)
  }

  /** Some timeline below the root stalls on joining. */
  predicate KidStalls<O>(n: Node<O>, sp: Span, now: real)
    decreases n, 0
  {
    exists i :: 0 <= i < |n.children| && i < |sp.children| && Stalls(n.children[i], sp.children[i], now)
  }

  /** `after` differs from `before` at most in the clock, the scene, the
      scene flag and the children, and has as many children. */
  ghost predicate JoinSetup<O>(before: Node<O>, after: Node<O>) {
    after == before.(clock := after.clock, scene := after.scene, addedToScene := after.addedToScene,
                     children := after.children)
  }

  /** Every timeline of the subtree has the scene `ren`. */
  predicate AllIn<O>(n: Node<O>, ren: Scene)
    decreases n
  {
    n.scene == Some(ren) && forall i :: 0 <= i < |n.children| ==> AllIn(n.children[i], ren)
  }

  /** A pass never changes any timeline's scene. */
  lemma {:induction false} TickKeepsScenes<O>(n: Node<O>, t: real, force: bool, parent: Option<bool>, ren: Scene)
    requires Settled(n) && AllIn(n, ren)
    ensures AllIn(TickNode(n, t, force, parent), ren)
    decreases n
  {
    if n.clock.playing || force {
      var inScene := InScene(n, t, parent);
      TickChildrenAt(n.children, 0, t, inScene);
      forall j | 0 <= j < |n.children|
        ensures AllIn(TickNode(n, t, force, parent).children[j], ren)
      {
        TickKeepsScenes(n.children[j], t, true, Some(inScene), ren);
      }
    }
  }

  lemma ClockKeepsScenes<O>(n: Node<O>, c: Clock, ren: Scene)
    requires AllIn(n, ren)
    ensures AllIn(n.(clock := c), ren)
  {
  }

  /** Nor does an update: every timeline of a subtree that has the scene
      still has it afterwards. */
  lemma UpdateKeepsScenes<O>(n: Node<O>, sp: Span, t: Option<real>, force: bool, parent: Option<bool>, now: real,
                             ren: Scene)
    requires Settled(n) && n.clock.speed > 0.0 && sp.final >= 0.0 && AllIn(n, ren)
    ensures AllIn(Update(n, sp, t, force, parent, now).node, ren)
  {
    if t.Some? {
      TickKeepsScenes(n, t.value, force, parent, ren);
    } else {
      var at := Read(n.clock, now);
      var n1 := n.(clock := AfterRead(n.clock, now));
      ClockKeepsScenes(n, n1.clock, ren);
      if at <= sp.final {
        TickKeepsScenes(n1, at, force, parent, ren);
      } else {
        OvershootKeepsScenes(n1, sp, at, force, parent, now, ren);
      }
    }
  }

  /** The overshoot branch of `UpdateKeepsScenes`. */
  lemma OvershootKeepsScenes<O>(n: Node<O>, sp: Span, at: real, force: bool, parent: Option<bool>, now: real,
                                ren: Scene)
    requires Settled(n) && n.clock.speed > 0.0 && sp.final >= 0.0 && AllIn(n, ren)
    ensures AllIn(OvershootOutcome(n, sp, at, force, parent, now).node, ren)
  {
    var first := SeekOutcome(n, sp, if n.loop then 0.0 else sp.final, now);
    SeekKeepsScenes(n, sp, if n.loop then 0.0 else sp.final, now, ren);
    ClockKeepsScenes(first.node, PauseClock(first.node.clock, now), ren);
    if n.loop || sp.hasPanel {
      var n2 := if n.loop then first.node else first.node.(clock := PauseClock(first.node.clock, now));
      TickKeepsScenes(n2, at, force, parent, ren);
    }
  }

  lemma SeekKeepsScenes<O>(n: Node<O>, sp: Span, t: real, now: real, ren: Scene)
    requires Settled(n) && n.clock.speed > 0.0 && sp.final >= 0.0 && AllIn(n, ren)
    ensures AllIn(SeekOutcome(n, sp, t, now).node, ren)
  {
    var n2 := n.(clock := SeekClock(n.clock, t, sp.final, now));
    ClockKeepsScenes(n, n2.clock, ren);
    if !n.clock.playing {
      assert !Overshoots(n2, sp, None, now);
      ClockKeepsScenes(n, AfterRead(n2.clock, now), ren);
      TickKeepsScenes(n2.(clock := AfterRead(n2.clock, now)), Read(n2.clock, now), true, None, ren);
    }
  }

  /** `add_to_scene(ren)`: the members join the scene and every static actor
      is handed to the renderer; then every child timeline is, in order,
      which runs the child's own `add_to_scene(ren)` and stops at the first
      that fails. After that the timeline records the scene, counts as
      added, and runs a forced update. */
  function AddToSceneOutcome<O>(n: Node<O>, sp: Span, ren: Scene, now: real): (r: Outcome<O>)
    requires Joinable(n, sp)
    ensures |r.effects| > 0 && r.effects[0] == EnterScene(n.owner)
    ensures r.ok ==> Settled(r.node)
    decreases n, 1
  {
    var head := [EnterScene(n.owner)] + StaticAdds(n.owner, n.staticActors);
    var kids := JoinFirst(n.children, sp.children, |n.children|, ren, now);
    if !kids.ok then
      Outcome(head + kids.effects, false, n.(children := kids.kids), sp.(children := kids.spans))
    else
      var u := Update(n.(scene := Some(ren), addedToScene := true, children := kids.kids),
                      sp.(children := kids.spans), None, true, None, now);
      u.(effects := head + kids.effects + u.effects)
  }

  /** The children's part of `add_to_scene` after the first `i` children:
      their events, whether all succeeded, and the children's new subtrees
      and spans (the children from `i` on, and those after a failed one,
      are untouched). */
  datatype Joined<O> = Joined(effects: seq<Event<O>>, ok: bool, kids: seq<Node<O>>, spans: seq<Span>)

  function JoinFirst<O>(cs: seq<Node<O>>, ss: seq<Span>, i: nat, ren: Scene, now: real): (r: Joined<O>)
    requires JoinableKids(cs, ss) && i <= |cs|
    ensures |r.kids| == |cs| && |r.spans| == |cs|
    ensures r.ok ==> forall j :: 0 <= j < i ==> Settled(r.kids[j])
    decreases cs, i
  {
    if i == 0 then Joined([], true, cs, ss)
    else
      var p := JoinFirst(cs, ss, i - 1, ren, now);
      if !p.ok then p
      else
        var c := AddToSceneOutcome(cs[i - 1], ss[i - 1], ren, now);
        Joined(p.effects + c.effects, c.ok, p.kids[i - 1 := c.node], p.spans[i - 1 := c.spans])
  }

  /** Once a child has failed, the later children are not reached. */
  lemma {:induction false} JoinFirstStops<O>(cs: seq<Node<O>>, ss: seq<Span>, i: nat, j: nat, ren: Scene, now: real)
    requires JoinableKids(cs, ss) && i <= j <= |cs| && !JoinFirst(cs, ss, i, ren, now).ok
    ensures JoinFirst(cs, ss, j, ren, now) == JoinFirst(cs, ss, i, ren, now)
    decreases j
  {
    if i < j {
      JoinFirstStops(cs, ss, i, j - 1, ren, now);
    }
  }

  /** `add_to_scene` succeeds exactly when no timeline of the subtree
      stalls. It changes only clocks, scenes, scene flags and final
      timestamps; on success every timeline of the subtree has the scene,
      and the root records it unless a child failed first. */
  lemma {:induction false} AddToSceneKeeps<O>(n: Node<O>, sp: Span, ren: Scene, now: real)
    requires Joinable(n, sp)
    ensures var r := AddToSceneOutcome(n, sp, ren, now);
      (r.ok <==> !Stalls(n, sp, now))
      && JoinSetup(n, r.node) && r.spans.length == sp.length && r.spans.hasPanel == sp.hasPanel
      && (r.ok ==> AllIn(r.node, ren))
      && r.node.scene == if KidStalls(n, sp, now) then n.scene else Some(ren)
    decreases n, 1
  {
    JoinFirstKeeps(n.children, sp.children, |n.children|, ren, now);
    var kids := JoinFirst(n.children, sp.children, |n.children|, ren, now);
    assert kids.ok <==> !KidStalls(n, sp, now);
    if kids.ok {
      var n1 := n.(scene := Some(ren), addedToScene := true, children := kids.kids);
      var sp1 := sp.(children := kids.spans);
      UpdateKeeps(n1, sp1, None, true, None, now);
      assert AllIn(n1, ren);
      UpdateKeepsScenes(n1, sp1, None, true, None, now, ren);
    }
  }

  /** The children's part: after the first `i` children it has succeeded
      exactly when none of them stalls, every child is changed only as
      `add_to_scene` may, and on success every joined child's subtree has
      the scene. */
  lemma {:induction false} JoinFirstKeeps<O>(cs: seq<Node<O>>, ss: seq<Span>, i: nat, ren: Scene, now: real)
    requires JoinableKids(cs, ss) && i <= |cs|
    ensures var r := JoinFirst(cs, ss, i, ren, now);
      (r.ok <==> forall j :: 0 <= j < i ==> !Stalls(cs[j], ss[j], now))
      && (forall j :: 0 <= j < |cs| ==> JoinSetup(cs[j], r.kids[j]))
      && (r.ok ==> forall j :: 0 <= j < i ==> AllIn(r.kids[j], ren))
    decreases cs, i
  {
    if i > 0 {
      JoinFirstKeeps(cs, ss, i - 1, ren, now);
      var p := JoinFirst(cs, ss, i - 1, ren, now);
      if p.ok {
        var c := AddToSceneOutcome(cs[i - 1], ss[i - 1], ren, now);
        AddToSceneKeeps(cs[i - 1], ss[i - 1], ren, now);
        JoinStep(cs, ss, i, ren, now, p, c, JoinFirst(cs, ss, i, ren, now));
      } else {
        assert JoinFirst(cs, ss, i, ren, now) == p;
      }
    }
  }

  /** The step of `JoinFirstKeeps` for a child reached after the earlier
      ones succeeded. */
  lemma JoinStep<O>(cs: seq<Node<O>>, ss: seq<Span>, i: nat, ren: Scene, now: real,
                    p: Joined<O>, c: Outcome<O>, r: Joined<O>)
    requires 0 < i <= |cs| == |ss| == |p.kids| == |p.spans| && p.ok
    requires forall j :: 0 <= j < i - 1 ==> !Stalls(cs[j], ss[j], now) && AllIn(p.kids[j], ren)
    requires forall j :: 0 <= j < |cs| ==> JoinSetup(cs[j], p.kids[j])
    requires (c.ok <==> !Stalls(cs[i - 1], ss[i - 1], now)) && JoinSetup(cs[i - 1], c.node)
    requires c.ok ==> AllIn(c.node, ren)
    requires r == Joined(p.effects + c.effects, c.ok, p.kids[i - 1 := c.node], p.spans[i - 1 := c.spans])
    ensures (r.ok <==> forall j :: 0 <= j < i ==> !Stalls(cs[j], ss[j], now))
      && (forall j :: 0 <= j < |cs| ==> JoinSetup(cs[j], r.kids[j]))
      && (r.ok ==> forall j :: 0 <= j < i ==> AllIn(r.kids[j], ren))
  {
    forall j | 0 <= j < |cs|
      ensures JoinSetup(cs[j], r.kids[j])
      ensures r.ok && j < i ==> AllIn(r.kids[j], ren)
    {
      if j != i - 1 {
        assert r.kids[j] == p.kids[j];
      }
    }
  }

  /** After `add_to_scene` the timeline keeps the scene, and when the clock
      has not run past the end its membership follows the window at the
      time read: a timeline whose window does not hold then is taken out
      of the scene again by the forced update. */
  lemma AddToSceneFollowsWindow<O>(n: Node<O>, sp: Span, ren: Scene, now: real)
    requires Joinable(n, sp) && !KidStalls(n, sp, now)
    ensures AddToSceneOutcome(n, sp, ren, now).node.scene == Some(ren)
    ensures Read(n.clock, now) <= sp.final ==>
              AddToSceneOutcome(n, sp, ren, now).node.addedToScene
              == InsideSceneAt(n.addTime, n.removeTime, Read(n.clock, now))
  {
    AddToSceneKeeps(n, sp, ren, now);
  }

  /** A child timeline added through its parent gets the scene too. When
      nothing stalls and the parent's clock has not run past the end, the
      parent's forced update leaves each child in the scene exactly when the
      parent's window and the child's own window both hold at the time the
      parent read. */
  lemma AddToSceneJoinsChildren<O>(n: Node<O>, sp: Span, ren: Scene, now: real, j: nat)
    requires Joinable(n, sp) && !Stalls(n, sp, now) && Read(n.clock, now) <= sp.final && j < |n.children|
    ensures var c := AddToSceneOutcome(n, sp, ren, now).node.children[j];
      var at := Read(n.clock, now);
      c.scene == Some(ren)
      && c.addedToScene == (InsideSceneAt(n.addTime, n.removeTime, at)
                            && InsideSceneAt(n.children[j].addTime, n.children[j].removeTime, at))
  {
    JoinFirstKeeps(n.children, sp.children, |n.children|, ren, now);
    AddToSceneKeeps(n, sp, ren, now);
    var kids := JoinFirst(n.children, sp.children, |n.children|, ren, now);
    var n1 := n.(scene := Some(ren), addedToScene := true, children := kids.kids);
    var n2 := n1.(clock := AfterRead(n1.clock, now));
    var at := Read(n.clock, now);
    assert AddToSceneOutcome(n, sp, ren, now).node == TickNode(n2, at, true, None);
    assert JoinSetup(n.children[j], kids.kids[j]);
    ChildrenFollowParent(n2, at, true, None, j);
  }
}
