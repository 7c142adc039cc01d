/** The `Timeline` class: a keyframe-animation timeline that owns keyframe
    and interpolator tables, a playback clock, controlled and static actors
    and child timelines. Every operation that updates the animation returns
    the events it produced (see `Playback.Event`) and is proved against the
    value-level semantics in `Playback`: the subtree's new state is stated
    through its ghost snapshots `Shot` and `Sp`. */
module Timelines {
  import opened Playback

  /** What `add` accepts: an actor, a timeline, or a (nested) list of them.
      `Unsupported` is any other object. */
  datatype Item = ActorItem(actor: Actor) | TimelineItem(timeline: Timeline) | ItemList(items: seq<Item>) | Unsupported

  /** The objects `add` reaches, in the order it reaches them: every list
      flattened. */
  function Leaves(it: Item): (ls: seq<Item>)
    ensures forall k :: 0 <= k < |ls| ==> !ls[k].ItemList?
    decreases it
  {
    match it
    case ItemList(xs) => ListLeaves(xs)
    case _ => [it]
  }

  function ListLeaves(xs: seq<Item>): (ls: seq<Item>)
    ensures forall k :: 0 <= k < |ls| ==> !ls[k].ItemList?
    decreases xs
  {
    if |xs| == 0 then [] else Leaves(xs[0]) + ListLeaves(xs[1..])
  }

  lemma {:induction false} ListLeavesConcat(a: seq<Item>, b: seq<Item>)
    ensures ListLeaves(a + b) == ListLeaves(a) + ListLeaves(b)
    decreases |a|
  {
    if |a| > 0 {
      assert (a + b)[1..] == a[1..] + b;
      ListLeavesConcat(a[1..], b);
    } else {
      assert a + b == b;
    }
  }

  /** No leaf is an unsupported object. */
  predicate AllSupported(ls: seq<Item>) {
    forall k :: 0 <= k < |ls| ==> !ls[k].Unsupported?
  }

  /** The leaves `add` hands on before the first unsupported one raises. */
  function Accepted(ls: seq<Item>): (r: seq<Item>)
    ensures AllSupported(r) && r <= ls
    ensures AllSupported(ls) ==> r == ls
    ensures !AllSupported(ls) ==> |r| < |ls| && ls[|r|].Unsupported?
  {
    if |ls| == 0 || ls[0].Unsupported? then []
    else [ls[0]] + Accepted(ls[1..])
  }

  lemma {:induction false} AcceptedConcat(a: seq<Item>, b: seq<Item>)
    ensures Accepted(a + b) == if AllSupported(a) then a + Accepted(b) else Accepted(a)
    decreases |a|
  {
    if |a| > 0 {
      assert (a + b)[1..] == a[1..] + b;
      AcceptedConcat(a[1..], b);
    } else {
      assert a + b == b;
    }
  }

  /** How `add` on a list splits at its first element. */
  lemma {:induction false} AcceptedFirst(l: seq<Item>, r: seq<Item>)
    ensures AllSupported(l + r) == (AllSupported(l) && AllSupported(r))
    ensures LeafTimelines(l + r) == LeafTimelines(l) + LeafTimelines(r)
    ensures AllSupported(l) ==> Accepted(l + r) == l + Accepted(r)
    ensures AllSupported(l) ==> LeafActors(l + Accepted(r)) == LeafActors(l) + LeafActors(Accepted(r))
    ensures AllSupported(l) ==> LeafTimelines(l + Accepted(r)) == LeafTimelines(l) + LeafTimelines(Accepted(r))
    ensures !AllSupported(l) ==> Accepted(l + r) == Accepted(l)
  {
    AcceptedConcat(l, r);
    LeafConcat(l, r);
    LeafConcat(l, Accepted(r));
    if !AllSupported(l) {
      assert (l + r)[|Accepted(l)|] == l[|Accepted(l)|];
    } else if !AllSupported(r) {
      assert (l + r)[|l| + |Accepted(r)|] == r[|Accepted(r)|];
    }
  }

  /** The actors among the leaves, in order. */
  function LeafActors(ls: seq<Item>): seq<Actor> {
    if |ls| == 0 then []
    else (if ls[0].ActorItem? then [ls[0].actor] else []) + LeafActors(ls[1..])
  }

  /** The timelines among the leaves, in order. */
  function LeafTimelines(ls: seq<Item>): seq<Timeline> {
    if |ls| == 0 then []
    else (if ls[0].TimelineItem? then [ls[0].timeline] else []) + LeafTimelines(ls[1..])
  }

  lemma {:induction false} LeafConcat(a: seq<Item>, b: seq<Item>)
    ensures LeafActors(a + b) == LeafActors(a) + LeafActors(b)
    ensures LeafTimelines(a + b) == LeafTimelines(a) + LeafTimelines(b)
    decreases |a|
  {
    if |a| > 0 {
      assert (a + b)[1..] == a[1..] + b;
      LeafConcat(a[1..], b);
    } else {
      assert a + b == b;
    }
  }

  /** The heap parts of `tls`. */
  ghost function ReprsOf(tls: seq<Timeline>): set<object>
    reads set k | 0 <= k < |tls| :: tls[k]
  {
    if |tls| == 0 then {} else tls[0].Repr + ReprsOf(tls[1..])
  }

  /** Timelines that can become children: each is valid, and they own parts
      of the heap disjoint from each other and from `taken`. */
  ghost predicate Adoptable(tls: seq<Timeline>, taken: set<object>)
    reads set k | 0 <= k < |tls| :: tls[k]
    reads set k, o | 0 <= k < |tls| && o in tls[k].Repr :: o
  {
    (forall k :: 0 <= k < |tls| ==> tls[k].Valid() && tls[k].Repr !! taken)
    && (forall k, l :: 0 <= k < l < |tls| ==> tls[k].Repr !! tls[l].Repr)
  }

  lemma {:induction false} ReprsOfConcat(a: seq<Timeline>, b: seq<Timeline>)
    ensures ReprsOf(a + b) == ReprsOf(a) + ReprsOf(b)
    decreases |a|
  {
    if |a| > 0 {
      assert (a + b)[1..] == a[1..] + b;
      ReprsOfConcat(a[1..], b);
    } else {
      assert a + b == b;
    }
  }

  /** Timelines whose parts nothing touched keep their parts, and stay
      adoptable. */
  twostate lemma {:induction false} AdoptableKept(tls: seq<Timeline>)
    requires forall k :: 0 <= k < |tls| ==> old(tls[k].Valid()) && unchanged(old(tls[k].Repr))
    ensures ReprsOf(tls) == old(ReprsOf(tls))
    ensures forall taken: set<object> | old(allocated(taken)) && old(Adoptable(tls, taken)) :: Adoptable(tls, taken)
    decreases |tls|
  {
    forall k | 0 <= k < |tls|
      ensures tls[k].Valid() && tls[k].Repr == old(tls[k].Repr)
    {
      assert unchanged(old(tls[k].Repr));
    }
    if |tls| > 0 {
      assert forall k :: 0 <= k < |tls| - 1 ==> tls[1..][k] == tls[k + 1];
      AdoptableKept(tls[1..]);
    }
  }

  /** Timelines nothing touched keep their parts. */
  twostate lemma ReprsKept(tls: seq<Timeline>)
    requires forall k :: 0 <= k < |tls| ==> unchanged(tls[k])
    ensures ReprsOf(tls) == old(ReprsOf(tls))
    decreases |tls|
  {
    if |tls| > 0 {
      ReprsKept(tls[1..]);
    }
  }

  /** The split `add` makes at a list's first element: its timelines are
      adoptable now, the others once its parts are taken, and none of them
      owns anything already taken. */
  lemma AdoptableHead(tl: seq<Timeline>, tr: seq<Timeline>, taken: set<object>)
    requires Adoptable(tl + tr, taken)
    ensures Adoptable(tl, taken) && Adoptable(tr, taken + ReprsOf(tl))
    ensures forall k :: 0 <= k < |tl| ==> tl[k].Valid() && tl[k].Repr !! taken
    ensures forall k :: 0 <= k < |tr| ==> tr[k].Valid() && tr[k].Repr !! taken
  {
    AdoptableSplit(tl, tr, taken);
  }

  /** Adopting the timelines of `a` leaves those of `b` adoptable once the
      parts of `a` are taken too. */
  lemma {:induction false} AdoptableSplit(a: seq<Timeline>, b: seq<Timeline>, taken: set<object>)
    requires Adoptable(a + b, taken)
    ensures Adoptable(a, taken) && Adoptable(b, taken + ReprsOf(a))
    decreases |a|
  {
    if |a| > 0 {
      var rest := (a + b)[1..];
      assert rest == a[1..] + b;
      assert Adoptable(rest, taken + a[0].Repr) by {
        forall k | 0 <= k < |rest|
          ensures rest[k].Repr !! a[0].Repr
        {
          assert rest[k] == (a + b)[k + 1] && a[0] == (a + b)[0];
        }
      }
      AdoptableSplit(a[1..], b, taken + a[0].Repr);
      assert taken + a[0].Repr + ReprsOf(a[1..]) == taken + ReprsOf(a);
      assert forall k :: 0 <= k < |a| ==> a[k] == (a + b)[k];
    } else {
      assert a + b == b;
    }
  }

  /** The position of the first `a` in `xs` (what `list.remove` removes). */
  function FirstIndex<T(==)>(xs: seq<T>, a: T): (i: nat)
    requires a in xs
    ensures i < |xs| && xs[i] == a && forall j :: 0 <= j < i ==> xs[j] != a
  {
    if xs[0] == a then 0 else 1 + FirstIndex(xs[1..], a)
  }

  lemma FirstIndexIs<T>(xs: seq<T>, a: T, i: nat)
    requires i < |xs| && xs[i] == a && forall j :: 0 <= j < i ==> xs[j] != a
    ensures FirstIndex(xs, a) == i
  {
  }

  class Timeline {
    var keyframes: Spaces<map<string, Channel>>
    var interpolators: Spaces<map<string, Interpolator>>
    var hasPanel: bool
    /** `_playing`, `_last_timestamp`, `_last_started_time` and `_speed`. */
    var clock: Clock
    var loop: bool
    var length: Option<real>
    var finalTimestamp: real
    var timelines: seq<Timeline>
    var staticActors: seq<Actor>
    var items: seq<Actor>
    var camera: Option<CameraRef>
    var scene: Option<Scene>
    var addedToScene: bool
    var addToSceneTime: real
    var removeFromSceneTime: Option<real>
    var cameraAnimated: bool

    /** The subtree as values: every field except the final timestamps
        (`Shot`), and the final timestamps (`Sp`). */
    ghost var Shot: Node<Timeline?>
    ghost var Sp: Span
    ghost var Repr: set<object>

    /** The part of `Valid` about this timeline's own fields: the speed is
        positive, the final timestamp and the length are not negative, only
        keyframed channels have interpolators, and the snapshots hold the
        fields' values. */
    ghost predicate Own()
      reads this
    {
      clock.speed > 0.0 && finalTimestamp >= 0.0
      && (length.Some? ==> length.value >= 0.0)
      && Covered(keyframes, interpolators)
      && Shot.owner == this && Shot.clock == clock && Shot.loop == loop
      && Shot.camera == camera && Shot.cameraAnimated == cameraAnimated && Shot.scene == scene
      && Shot.addedToScene == addedToScene && Shot.addTime == addToSceneTime
      && Shot.removeTime == removeFromSceneTime && Shot.keyframes == keyframes
      && Shot.interpolators == interpolators && Shot.actors == items
      && Shot.staticActors == staticActors
      && Sp.final == finalTimestamp && Sp.length == length && Sp.hasPanel == hasPanel
      && |Shot.children| == |timelines| && |Sp.children| == |timelines|
    }

    /** Every field except the snapshots, for stating that they are
        unchanged. */
    ghost function Config(): (Spaces<map<string, Channel>>, Spaces<map<string, Interpolator>>, bool, Clock, bool,
                              Option<real>, real, seq<Timeline>, seq<Actor>, seq<Actor>, Option<CameraRef>,
                              Option<Scene>, bool, real, Option<real>, bool, set<object>)
      reads this`keyframes, this`interpolators, this`hasPanel, this`clock, this`loop, this`length,
            this`finalTimestamp, this`timelines, this`staticActors, this`items, this`camera, this`scene,
            this`addedToScene, this`addToSceneTime, this`removeFromSceneTime, this`cameraAnimated, this`Repr
    {
      (keyframes, interpolators, hasPanel, clock, loop, length, finalTimestamp, timelines, staticActors, items,
       camera, scene, addedToScene, addToSceneTime, removeFromSceneTime, cameraAnimated, Repr)
    }

    /** The subtree invariant: every timeline of the subtree satisfies `Own`,
        child timelines own disjoint parts of the heap, and the snapshots of
        the children are the children's own. */
    ghost predicate Valid()
      reads this, Repr
      decreases Repr
    {
      var ok := this in Repr && Own()
      && (forall i :: 0 <= i < |timelines| ==>
            timelines[i] in Repr && timelines[i].Repr <= Repr && this !in timelines[i].Repr
            && timelines[i].Valid()
            && Shot.children[i] == timelines[i].Shot && Sp.children[i] == timelines[i].Sp)
      && (forall i, j :: 0 <= i < j < |timelines| ==> timelines[i].Repr !! timelines[j].Repr);
      ok
    }

    /** 1 while this timeline still has to fetch its scene's camera. */
    ghost function Pend(): nat
      reads this`camera, this`cameraAnimated, this`scene
    {
      if camera.None? && cameraAnimated && scene.Some? then 1 else 0
    }

    /** A new timeline: no keyframes, a stopped clock at speed 1, the given
        actors controlled and, with a playback panel, the panel as a static
        actor. */
    constructor (actors: seq<Actor>, playbackPanel: bool, length: Option<real>)
      requires length.None? || length.value >= 0.0
      ensures Valid() && fresh(Repr)
      ensures Shot == Node(this as Timeline?, Clock(false, 0.0, 0.0, 1.0), false, None, false, None, true, 0.0, None,
                           Spaces(map[], map[]), Spaces(map[], map[]), actors,
                           if playbackPanel then [PanelWidget] else [], [])
      ensures Sp == Span(0.0, length, playbackPanel, [])
      ensures timelines == []
    {
      keyframes := Spaces(map[], map[]);
      interpolators := Spaces(map[], map[]);
      hasPanel := playbackPanel;
      clock := Clock(false, 0.0, 0.0, 1.0);
      timelines := [];
      camera := None;
      scene := None;
      this.length := length;
      finalTimestamp := 0.0;
      loop := false;
      addedToScene := true;
      addToSceneTime := 0.0;
      removeFromSceneTime := None;
      cameraAnimated := false;
      items := actors;
      staticActors := if playbackPanel then [PanelWidget] else [];
      Shot := Node(null, Clock(false, 0.0, 0.0, 1.0), false, None, false, None, true, 0.0, None,
                   Spaces(map[], map[]), Spaces(map[], map[]), items, staticActors, []);
      Sp := Span(0.0, length, playbackPanel, []);
      Repr := {};
      new;
      Shot := Shot.(owner := this);
      Repr := {this};
      assert Own();
    }

    /** Write the clock fields. */
    method SetClock(c: Clock)
      requires Valid() && c.speed > 0.0
      modifies this`clock, this`Shot
      ensures Valid() && clock == c
      ensures Shot == old(Shot).(clock := c)
    {
      clock := c;
      Shot := Shot.(clock := c);
      OwnChange(this);
    }

    /** The `current_timestamp` getter: reads the clock and, when playing,
        stores what it read. */
    method CurrentTimestamp(now: real) returns (t: real)
      requires Valid()
      modifies this`clock, this`Shot
      ensures Valid()
      ensures t == Read(old(clock), now)
      ensures Shot == old(Shot).(clock := AfterRead(old(clock), now))
    {
      if clock.playing {
        SetClock(clock.(last := (now - clock.started) * clock.speed));
      }
      t := clock.last;
    }

    /** `pause`: freeze the clock at the time it reads now. */
    method Pause(now: real)
      requires Valid()
      modifies this`clock, this`Shot
      ensures Valid()
      ensures Shot == old(Shot).(clock := PauseClock(old(clock), now))
    {
      var t := CurrentTimestamp(now);
      SetClock(clock.(last := t, playing := false));
    }

    /** `update_final_timestamp`: recompute the subtree's final timestamps
        (see `Recompute`) and return this timeline's. */
    method UpdateFinalTimestamp() returns (final: real)
      requires Valid()
      modifies Repr - {this}, this`finalTimestamp, this`Sp
      ensures Valid() && Repr == old(Repr) && Shot == old(Shot)
      ensures Sp == Recompute(old(Sp)) && final == Sp.final
      decreases Repr, 2
    {
      if length.None? {
        var latest := RecomputeChildren();
        label Kids:
        finalTimestamp := MaxOf(finalTimestamp, latest);
        Sp := Sp.(final := finalTimestamp);
        OwnChange@Kids(this);
      } else {
        finalTimestamp := length.value;
        Sp := Sp.(final := finalTimestamp);
        OwnChange(this);
      }
      final := finalTimestamp;
    }

    /** The children's part of `update_final_timestamp`: recompute every
        child in order, collecting their finals, and return
        `max([0] + finals)`. */
    method RecomputeChildren() returns (latest: real)
      requires Valid()
      modifies Repr - {this}, this`Sp
      ensures Valid() && Repr == old(Repr) && Shot == old(Shot)
      ensures Sp == old(Sp).(children := RecomputeKids(old(Sp.children), 0))
      ensures latest == Latest(Finals(Sp.children, |Sp.children|))
      decreases Repr, 1
    {
      ghost var before := Sp.children;
      ghost var kids := RecomputeKids(before, 0);
      var finals := [];
      var i := 0;
      while i < |timelines|
        invariant 0 <= i <= |timelines| == |kids| == |before|
        invariant Valid() && Repr == old(Repr) && Shot == old(Shot)
        invariant Sp == old(Sp).(children := kids[..i] + before[i..])
        invariant finals == Finals(kids, i)
      {
        finals := RecomputeKid(i, kids, before, finals);
        i := i + 1;
      }
      assert kids[..i] == kids && before[i..] == [];
      latest := Latest(finals);
    }

    /** `update_final_timestamp` on child `k`, seen from this timeline:
        only that child's final timestamps change, the children before `k`
        are already recomputed, and their finals are collected in order. */
    method RecomputeKid(k: nat, ghost kids: seq<Span>, ghost before: seq<Span>, finals: seq<real>)
      returns (next: seq<real>)
      requires Valid() && k < |timelines| == |before| && kids == RecomputeKids(before, 0)
      requires Sp.children == kids[..k] + before[k..] && finals == Finals(kids, k)
      modifies Repr - {this}, this`Sp
      ensures Valid() && Repr == old(Repr) && Shot == old(Shot)
      ensures Sp == old(Sp).(children := kids[..k + 1] + before[k + 1..])
      ensures next == Finals(kids, k + 1)
      decreases Repr, 0, 1
    {
      var f := RefreshKid(k);
      RecomputeKidAt(before, k);
      Splice(kids, before, k);
      next := finals + [f];
    }

    /** `update_final_timestamp` on child `k`, and the new spans in this
        timeline's snapshot. */
    method RefreshKid(k: nat) returns (f: real)
      requires Valid() && k < |timelines|
      modifies Repr - {this}, this`Sp
      ensures Valid() && Repr == old(Repr) && Shot == old(Shot)
      ensures Sp == old(Sp).(children := old(Sp.children)[k := Recompute(old(Sp.children[k]))])
      ensures f == Recompute(old(Sp.children[k])).final
      decreases Repr, 0, 0
    {
      KidFacts(k);
      var c := timelines[k];
      f := c.UpdateFinalTimestamp();
      Sp := Sp.(children := Sp.children[k := c.Sp]);
      SameAt(old(Shot.children), k);
      assert c.Shot == old(Shot.children)[k];
      ChildChange(k);
    }

    /** What the invariant says about child `k`. */
    lemma KidFacts(k: nat)
      requires Valid() && k < |timelines|
      ensures timelines[k].Valid() && timelines[k] in Repr && this !in timelines[k].Repr
      ensures timelines[k].Repr <= Repr - {this} && timelines[k].Repr < Repr
      ensures Shot.children[k] == timelines[k].Shot && Sp.children[k] == timelines[k].Sp
    {
    }

    /** Write the scene-membership flag. */
    method SetAdded(b: bool)
      requires Valid()
      modifies this`addedToScene, this`Shot
      ensures Valid() && addedToScene == b
      ensures Shot == old(Shot).(addedToScene := b)
    {
      addedToScene := b;
      Shot := Shot.(addedToScene := b);
      OwnChange(this);
    }

    /** `handle_scene_event`: with a scene, join it on entering the window
        and leave it on exiting; otherwise do nothing. */
    method HandleSceneEvent(inScene: bool) returns (effects: seq<Event<Timeline?>>)
      requires Valid()
      modifies this`addedToScene, this`Shot
      ensures Valid()
      ensures effects == SceneEvent(this as Timeline?, scene, old(addedToScene), inScene)
      ensures Shot == old(Shot).(addedToScene := SceneFlag(scene, old(addedToScene), inScene))
    {
      effects := [];
      if scene.Some? {
        if inScene && !addedToScene {
          effects := [EnterScene(this)];
          SetAdded(true);
        } else if !inScene && addedToScene {
          effects := [LeaveScene(this)];
          SetAdded(false);
        }
      }
    }

    /** `is_inside_scene_at`. */
    function IsInsideSceneAt(t: real): (inside: bool)
      reads this`addToSceneTime, this`removeFromSceneTime
      ensures inside <==> addToSceneTime <= t && (removeFromSceneTime.None? || t < removeFromSceneTime.value)
    {
      InsideSceneAt(addToSceneTime, removeFromSceneTime, t)
    }

    /** Write the camera field. */
    method SetCamera(cam: CameraRef)
      requires Valid()
      modifies this`camera, this`Shot
      ensures Valid() && camera == Some(cam)
      ensures Shot == old(Shot).(camera := Some(cam))
    {
      camera := Some(cam);
      Shot := Shot.(camera := camera);
      OwnChange(this);
    }

    /** `update_animation(t, force, _in_scene)`; `ok` is false when the call
        would raise. Without a time it reads the clock; past the final
        timestamp it seeks to 0 when looping, and otherwise to the final
        timestamp followed by the playback panel's pause. The pass that
        follows uses the time that was read. */
    method UpdateAnimation(t: Option<real>, force: bool, parent: Option<bool>, now: real)
      returns (effects: seq<Event<Timeline?>>, ok: bool)
      requires Valid()
      modifies Repr - {this}, this`clock, this`finalTimestamp, this`addedToScene, this`camera, this`Shot, this`Sp
      ensures Valid() && Repr == old(Repr) && Pend() <= old(Pend())
      ensures old(Settled(Shot)) ==> Outcome(effects, ok, Shot, Sp) == Update(old(Shot), old(Sp), t, force, parent, now)
      decreases Repr, Pend(), if t.None? && Read(clock, now) > finalTimestamp then 10 else 7
    {
      if t.Some? {
        effects, ok := PassAt(t.value, force, parent, now);
        return;
      }
      var at := CurrentTimestamp(now);
      if at <= finalTimestamp {
        effects, ok := PassAt(at, force, parent, now);
      } else {
        effects, ok := Overshoot(at, force, parent, now);
      }
    }

    /** `update_animation` past the end, at the time `at` that was read: a
        looping timeline seeks to 0, any other to its end and pauses there
        (failing without a panel); the pass then runs at `at`. */
    method Overshoot(at: real, force: bool, parent: Option<bool>, now: real)
      returns (effects: seq<Event<Timeline?>>, ok: bool)
      requires Valid()
      modifies Repr - {this}, this`clock, this`finalTimestamp, this`addedToScene, this`camera, this`Shot, this`Sp
      ensures Valid() && Repr == old(Repr) && Pend() <= old(Pend())
      ensures old(Settled(Shot)) ==>
                Outcome(effects, ok, Shot, Sp) == OvershootOutcome(old(Shot), old(Sp), at, force, parent, now)
      decreases Repr, Pend(), 9
    {
      effects, ok := Seek(if loop then 0.0 else finalTimestamp, now);
      if !ok {
        return;
      }
      if !loop && !hasPanel {
        ok := false;
        return;
      }
      var more;
      more, ok := PauseThenPass(at, force, parent, now);
      effects := effects + more;
    }

    /** The tail of an overshoot: without looping, pause at the reached
        time; then pass at `at`. */
    method PauseThenPass(at: real, force: bool, parent: Option<bool>, now: real)
      returns (effects: seq<Event<Timeline?>>, ok: bool)
      requires Valid()
      modifies Repr - {this}, this`clock, this`finalTimestamp, this`addedToScene, this`camera, this`Shot, this`Sp
      ensures Valid() && Repr == old(Repr) && Pend() <= old(Pend())
      ensures old(Settled(Shot)) ==>
                Outcome(effects, ok, Shot, Sp)
                == Pass(if old(loop) then old(Shot) else old(Shot).(clock := PauseClock(old(clock), now)), old(Sp),
                        at, force, parent)
      decreases Repr, Pend(), 7
    {
      if !loop {
        Pause(now);
      }
      effects, ok := PassAt(at, force, parent, now);
    }

    /** `update_animation` once its time `at` is known: with a panel, when
        playing or forced, recompute the final timestamps; then handle the
        scene event and, when playing or forced, animate. */
    method PassAt(at: real, force: bool, parent: Option<bool>, now: real)
      returns (effects: seq<Event<Timeline?>>, ok: bool)
      requires Valid()
      modifies Repr - {this}, this`clock, this`finalTimestamp, this`addedToScene, this`camera, this`Shot, this`Sp
      ensures Valid() && Repr == old(Repr) && Pend() <= old(Pend())
      ensures old(Settled(Shot)) ==> Outcome(effects, ok, Shot, Sp) == Pass(old(Shot), old(Sp), at, force, parent)
      decreases Repr, Pend(), 6
    {
      if Settled(Shot) {
        PassIsVisit(Shot, Sp, at, force, parent);
      }
      if hasPanel && (clock.playing || force) {
        var final := UpdateFinalTimestamp();
      }
      effects, ok := Visit(at, force, parent, now);
    }

    /** The rest of `update_animation` at time `at`: the in-scene flag (the
        parent's, when given, and the own window), the scene event, and the
        animation. */
    method Visit(at: real, force: bool, parent: Option<bool>, now: real)
      returns (effects: seq<Event<Timeline?>>, ok: bool)
      requires Valid()
      modifies Repr - {this}, this`clock, this`finalTimestamp, this`addedToScene, this`camera, this`Shot, this`Sp
      ensures Valid() && Repr == old(Repr) && Pend() <= old(Pend())
      ensures old(Settled(Shot)) ==> Outcome(effects, ok, Shot, Sp) == VisitOutcome(old(Shot), old(Sp), at, force, parent)
      decreases Repr, Pend(), 5
    {
      var inScene := IsInsideSceneAt(at);
      if parent.Some? {
        inScene := parent.value && inScene;
      }
      var scene := HandleSceneEvent(inScene);
      var more;
      more, ok := Animate(at, inScene, force, now);
      effects := scene + more;
    }

    /** The playing-or-forced part of `update_animation`: nothing unless
        playing or forced; a timeline that animates the scene's camera but
        has none yet fetches it and starts the update over; otherwise the
        camera's values, then the actors' while in the scene, then every
        child. */
    method Animate(at: real, inScene: bool, force: bool, now: real) returns (effects: seq<Event<Timeline?>>, ok: bool)
      requires Valid()
      modifies Repr - {this}, this`clock, this`finalTimestamp, this`addedToScene, this`camera, this`Shot, this`Sp
      ensures Valid() && Repr == old(Repr) && Pend() <= old(Pend())
      ensures old(Settled(Shot)) ==> Outcome(effects, ok, Shot, Sp) == AnimateOutcome(old(Shot), old(Sp), at, inScene, force)
      decreases Repr, Pend(), 4
    {
      if !(clock.playing || force) {
        effects, ok := [], true;
        return;
      }
      if camera.None? && cameraAnimated && scene.Some? {
        SetCamera(scene.value.camera);
        effects, ok := UpdateAnimation(None, true, None, now);
        return;
      }
      var cam: seq<Event<Timeline?>> :=
        if camera.Some? then CameraEffects(this as Timeline?, interpolators.camera.Keys, camera.value, at) else [];
      var own: seq<Event<Timeline?>> :=
        if inScene then ActorEffects(this as Timeline?, interpolators.attribs.Keys, items, at) else [];
      var more;
      more, ok := UpdateChildren(at, inScene, now);
      effects := cam + own + more;
    }

    /** Every child updated in order at the parent's time, forced, with the
        parent's in-scene flag; stops at the first child that fails. */
    method UpdateChildren(at: real, inScene: bool, now: real) returns (effects: seq<Event<Timeline?>>, ok: bool)
      requires Valid()
      modifies Repr - {this}, this`Shot, this`Sp
      ensures Valid() && Repr == old(Repr)
      ensures AllSettled(old(Shot.children)) ==>
        ok && effects == ChildrenEffects(old(Shot.children), 0, at, inScene)
        && Shot == old(Shot).(children := TickChildren(old(Shot.children), 0, at, inScene))
        && Sp == old(Sp).(children := TickKids(old(Sp.children), 0))
      decreases Repr, 0, 2
    {
      ghost var cs, ss := Shot.children, Sp.children;
      ghost var settled := AllSettled(cs);
      effects, ok := [], true;
      if settled {
        ChildrenStart(cs, ss, at, inScene);
      }
      var i := 0;
      while i < |timelines|
        invariant 0 <= i <= |timelines| == |cs| == |ss|
        invariant Valid() && Repr == old(Repr)
        invariant settled ==> ok && ChildrenDone(cs, ss, i, at, inScene, Shot.children, Sp.children, effects)
                                 && Shot == old(Shot).(children := Shot.children) && Sp == old(Sp).(children := Sp.children)
      {
        effects, ok := UpdateKid(i, at, inScene, now, cs, ss, settled, effects);
        if !ok {
          return;
        }
        i := i + 1;
      }
      if settled {
        ChildrenEnd(cs, ss, at, inScene, Shot.children, Sp.children, effects);
      }
    }

    /** One step of `UpdateChildren`: child `k` runs its update. */
    method UpdateKid(k: nat, at: real, inScene: bool, now: real, ghost cs: seq<Node<Timeline?>>, ghost ss: seq<Span>,
                     ghost settled: bool, effects: seq<Event<Timeline?>>)
      returns (next: seq<Event<Timeline?>>, ok: bool)
      requires Valid() && k < |timelines| == |cs| == |ss|
      requires settled ==> ChildrenDone(cs, ss, k, at, inScene, Shot.children, Sp.children, effects)
      modifies Repr - {this}, this`Shot, this`Sp
      ensures Valid() && Repr == old(Repr)
      ensures Shot == old(Shot).(children := Shot.children) && Sp == old(Sp).(children := Sp.children)
      ensures settled ==> ok && ChildrenDone(cs, ss, k + 1, at, inScene, Shot.children, Sp.children, next)
      decreases Repr, 0, 1
    {
      if settled {
        ChildrenAt(cs, ss, k, at, inScene, Shot.children, Sp.children, effects);
      }
      ghost var kids, sps := Shot.children, Sp.children;
      var es;
      es, ok := RunKid(k, at, inScene, now);
      next := effects + es;
      if settled {
        ChildrenStep(cs, ss, k, at, inScene, kids, sps, effects, es, Shot.children[k], Sp.children[k]);
      }
    }

    /** Child `k`'s `update_animation(at, force=True, _in_scene)`, and its
        new snapshots in this timeline's. */
    method RunKid(k: nat, at: real, inScene: bool, now: real) returns (es: seq<Event<Timeline?>>, ok: bool)
      requires Valid() && k < |timelines|
      modifies Repr - {this}, this`Shot, this`Sp
      ensures Valid() && Repr == old(Repr) && |Shot.children| == |old(Shot.children)|
      ensures Shot == old(Shot).(children := old(Shot.children)[k := Shot.children[k]])
      ensures Sp == old(Sp).(children := old(Sp.children)[k := Sp.children[k]])
      ensures old(Settled(Shot.children[k])) ==>
                Outcome(es, ok, Shot.children[k], Sp.children[k])
                == Pass(old(Shot.children[k]), old(Sp.children[k]), at, true, Some(inScene))
      decreases Repr, 0, 0
    {
      KidFacts(k);
      var c := timelines[k];
      es, ok := c.UpdateAnimation(Some(at), true, Some(inScene), now);
      Shot, Sp := Shot.(children := Shot.children[k := c.Shot]), Sp.(children := Sp.children[k := c.Sp]);
      assert Config() == old(Config()) && timelines[k] == c;
      ChildChange(k);
    }

    /** `seek`: clamp the time into `[0, final_timestamp]`; when playing,
        move the start time so that the clock reads it; otherwise store it
        and run a forced update. */
    method Seek(x: real, now: real) returns (effects: seq<Event<Timeline?>>, ok: bool)
      requires Valid()
      modifies Repr - {this}, this`clock, this`finalTimestamp, this`addedToScene, this`camera, this`Shot, this`Sp
      ensures Valid() && Repr == old(Repr) && Pend() <= old(Pend())
      ensures old(Settled(Shot)) ==> Outcome(effects, ok, Shot, Sp) == SeekOutcome(old(Shot), old(Sp), x, now)
      decreases Repr, Pend(), 8
    {
      var t := Clamp(x, finalTimestamp);
      if clock.playing {
        SetClock(clock.(started := now - t / clock.speed));
        effects, ok := [], true;
      } else {
        SetClock(clock.(last := t));
        effects, ok := UpdateAnimation(None, true, None, now);
      }
    }

    /** `play`: see `PlayOutcome`. */
    method Play(now: real) returns (effects: seq<Event<Timeline?>>, ok: bool)
      requires Valid()
      modifies Repr - {this}, this`clock, this`finalTimestamp, this`addedToScene, this`camera, this`Shot, this`Sp
      ensures Valid() && Repr == old(Repr)
      ensures old(Settled(Shot)) ==> Outcome(effects, ok, Shot, Sp) == PlayOutcome(old(Shot), old(Sp), now)
    {
      effects, ok := [], true;
      if clock.playing {
        return;
      }
      // while not playing, the `current_timestamp` getter returns the stored time
      if clock.last >= finalTimestamp {
        effects, ok := Seek(0.0, now);
        if !ok {
          return;
        }
      }
      Resume(now);
    }

    /** The tail of `play`: recompute the final timestamp and start the
        clock from the stored time. */
    method Resume(now: real)
      requires Valid()
      modifies Repr - {this}, this`clock, this`finalTimestamp, this`Shot, this`Sp
      ensures Valid() && Repr == old(Repr)
      ensures Shot == old(Shot).(clock := old(clock).(started := now - old(clock).last / old(clock).speed, playing := true))
      ensures Sp == Recompute(old(Sp))
    {
      var final := UpdateFinalTimestamp();
      SetClock(clock.(started := now - clock.last / clock.speed, playing := true));
    }

    /** `stop`: see `StopOutcome`. */
    method Stop(now: real) returns (effects: seq<Event<Timeline?>>, ok: bool)
      requires Valid()
      modifies Repr - {this}, this`clock, this`finalTimestamp, this`addedToScene, this`camera, this`Shot, this`Sp
      ensures Valid() && Repr == old(Repr)
      ensures old(Settled(Shot)) ==> Outcome(effects, ok, Shot, Sp) == StopOutcome(old(Shot), old(Sp), now)
    {
      SetClock(clock.(last := 0.0, playing := false));
      effects, ok := UpdateAnimation(None, true, None, now);
    }

    /** `restart`: see `RestartOutcome`. */
    method Restart(now: real) returns (effects: seq<Event<Timeline?>>, ok: bool)
      requires Valid()
      modifies Repr - {this}, this`clock, this`finalTimestamp, this`addedToScene, this`camera, this`Shot, this`Sp
      ensures Valid() && Repr == old(Repr)
      ensures old(Settled(Shot)) ==> Outcome(effects, ok, Shot, Sp) == RestartOutcome(old(Shot), old(Sp), now)
    {
      SetClock(clock.(last := 0.0, playing := true));
      effects, ok := UpdateAnimation(None, true, None, now);
    }

    /** The `speed` setter: see `SpeedOutcome`. */
    method SetSpeed(speed: real, now: real) returns (effects: seq<Event<Timeline?>>, ok: bool)
      requires Valid()
      modifies Repr - {this}, this`clock, this`finalTimestamp, this`addedToScene, this`camera, this`Shot, this`Sp
      ensures Valid() && Repr == old(Repr)
      ensures old(Settled(Shot)) ==> Outcome(effects, ok, Shot, Sp) == SpeedOutcome(old(Shot), old(Sp), speed, now)
    {
      var current := CurrentTimestamp(now);
      effects, ok := [], true;
      if speed <= 0.0 {
        return;
      }
      SetClock(clock.(speed := speed, started := now));
      effects, ok := Seek(current, now);
    }

    /** `seek_percent`: seek to `percent` percent of the final timestamp. */
    method SeekPercent(percent: real, now: real) returns (effects: seq<Event<Timeline?>>, ok: bool)
      requires Valid()
      modifies Repr - {this}, this`clock, this`finalTimestamp, this`addedToScene, this`camera, this`Shot, this`Sp
      ensures Valid() && Repr == old(Repr)
      ensures old(Settled(Shot)) ==>
                Outcome(effects, ok, Shot, Sp) == SeekOutcome(old(Shot), old(Sp), PercentTime(percent, old(finalTimestamp)), now)
    {
      effects, ok := Seek(percent * finalTimestamp / 100.0, now);
    }

    /** `set_timestamp`: see `SetTimeClock`. */
    method SetTimestamp(t: real, now: real)
      requires Valid()
      modifies this`clock, this`Shot
      ensures Valid() && clock == SetTimeClock(old(clock), t, now)
      ensures Shot == old(Shot).(clock := clock)
    {
      if clock.playing {
        SetClock(clock.(started := now - t / clock.speed));
      } else {
        SetClock(clock.(last := t));
      }
    }

    /** The `playing` setter: only the flag changes. */
    method SetPlaying(playing: bool)
      requires Valid()
      modifies this`clock, this`Shot
      ensures Valid() && clock == old(clock).(playing := playing)
      ensures Shot == old(Shot).(clock := clock)
    {
      SetClock(clock.(playing := playing));
    }

    /** The playback panel's loop toggle; only a timeline with a panel has
        one. */
    method SetLoop(loop: bool)
      requires Valid() && hasPanel
      modifies this`loop, this`Shot
      ensures Valid() && this.loop == loop
      ensures Shot == old(Shot).(loop := loop)
    {
      this.loop := loop;
      Shot := Shot.(loop := loop);
      OwnChange(this);
    }

    /** `add_to_scene_at`: the scene window opens at `t`. */
    method AddToSceneAt(t: real)
      requires Valid()
      modifies this`addToSceneTime, this`Shot
      ensures Valid() && addToSceneTime == t
      ensures Shot == old(Shot).(addTime := t)
      ensures forall u :: IsInsideSceneAt(u) <==> t <= u && (removeFromSceneTime.None? || u < removeFromSceneTime.value)
    {
      addToSceneTime := t;
      Shot := Shot.(addTime := t);
      OwnChange(this);
    }

    /** `remove_from_scene_at`: the scene window closes at `t`. */
    method RemoveFromSceneAt(t: real)
      requires Valid()
      modifies this`removeFromSceneTime, this`Shot
      ensures Valid() && removeFromSceneTime == Some(t)
      ensures Shot == old(Shot).(removeTime := Some(t))
      ensures forall u :: IsInsideSceneAt(u) <==> addToSceneTime <= u < t
    {
      removeFromSceneTime := Some(t);
      Shot := Shot.(removeTime := Some(t));
      OwnChange(this);
    }

    /** `is_interpolatable`. */
    function IsInterpolatable(space: Space, attrib: string): bool
      reads this`interpolators
    {
      attrib in interpolators.Get(space)
    }

    /** `get_value` and `get_camera_value`: the channel's interpolator
        evaluated at `t` by `interpolate`, which stands for the interpolator
        classes; `None` where the source fails on a channel without one. */
    function GetValue(space: Space, attrib: string, t: real, interpolate: (Interpolator, Channel, real) -> seq<real>)
      : (v: Option<seq<real>>)
      requires Covered(keyframes, interpolators)
      reads this`interpolators, this`keyframes
      ensures v.Some? <==> IsInterpolatable(space, attrib)
      ensures v.Some? ==> attrib in keyframes.Get(space)
                          && v.value == interpolate(interpolators.Get(space)[attrib], keyframes.Get(space)[attrib], t)
    {
      if attrib !in interpolators.Get(space) then None
      else Some(interpolate(interpolators.Get(space)[attrib], keyframes.Get(space)[attrib], t))
    }

    /** `set_interpolator`: rebind a channel that has keyframes; a channel
        without keyframes is left alone. */
    method SetInterpolator(space: Space, attrib: string, strategy: Strategy, degree: Option<int>)
      requires Valid()
      modifies this`interpolators, this`Shot
      ensures Valid()
      ensures attrib in keyframes.Get(space) ==>
                interpolators == old(interpolators).Put(space, old(interpolators).Get(space)[attrib := MakeInterpolator(strategy, degree)])
      ensures attrib !in keyframes.Get(space) ==> interpolators == old(interpolators)
      ensures Shot == old(Shot).(interpolators := interpolators)
    {
      if attrib in keyframes.Get(space) {
        interpolators := interpolators.Put(space, interpolators.Get(space)[attrib := MakeInterpolator(strategy, degree)]);
        Shot := Shot.(interpolators := interpolators);
        OwnChange(this);
      }
    }

    /** `set_keyframe` (and `set_camera_keyframe` for the camera space): see
        `KeyframeOutcome`. */
    method SetKeyframe(space: Space, attrib: string, t: real, k: Keyframe, now: real)
      returns (effects: seq<Event<Timeline?>>, ok: bool)
      requires Valid()
      modifies Repr - {this}, this`keyframes, this`interpolators, this`cameraAnimated, this`clock, this`finalTimestamp,
               this`addedToScene, this`camera, this`Shot, this`Sp
      ensures Valid() && Repr == old(Repr)
      ensures keyframes == old(keyframes).Put(space, StoreKeyframe(old(keyframes).Get(space), attrib, t, k))
      ensures interpolators == old(interpolators).Put(space, BindOnKeyframe(old(interpolators).Get(space), attrib))
      ensures IsInterpolatable(space, attrib)
      ensures old(Settled(KeyframeNode(Shot, space, attrib, t, k))) ==>
                Outcome(effects, ok, Shot, Sp) == KeyframeOutcome(old(Shot), old(Sp), space, attrib, t, k, now)
    {
      WriteKeyframe(space, attrib, t, k);
      effects, ok := [], true;
      if t > 0.0 {
        effects, ok := UpdateAnimation(None, true, None, now);
      }
    }

    /** Everything `set_keyframe` does before its update. */
    method WriteKeyframe(space: Space, attrib: string, t: real, k: Keyframe)
      requires Valid()
      modifies Repr - {this}, this`keyframes, this`interpolators, this`cameraAnimated, this`finalTimestamp, this`Shot, this`Sp
      ensures Valid() && Repr == old(Repr)
      ensures keyframes == old(keyframes).Put(space, StoreKeyframe(old(keyframes).Get(space), attrib, t, k))
      ensures interpolators == old(interpolators).Put(space, BindOnKeyframe(old(interpolators).Get(space), attrib))
      ensures Shot == KeyframeNode(old(Shot), space, attrib, t, k) && Sp == KeyframeSpans(old(Sp), t)
    {
      MarkCamera(space);
      StoreKeyframeIn(space, attrib, t, k);
      BindInterpolator(space, attrib);
      CatchUp(t);
    }

    /** The keyframe write of `set_keyframe`. */
    method StoreKeyframeIn(space: Space, attrib: string, t: real, k: Keyframe)
      requires Valid()
      modifies this`keyframes, this`Shot
      ensures Valid() && keyframes == old(keyframes).Put(space, StoreKeyframe(old(keyframes).Get(space), attrib, t, k))
      ensures Shot == old(Shot).(keyframes := keyframes)
    {
      keyframes := keyframes.Put(space, StoreKeyframe(keyframes.Get(space), attrib, t, k));
      Shot := Shot.(keyframes := keyframes);
      OwnChange(this);
    }

    /** A camera keyframe marks the camera as animated. */
    method MarkCamera(space: Space)
      requires Valid()
      modifies this`cameraAnimated, this`Shot
      ensures Valid() && cameraAnimated == (old(cameraAnimated) || space == Camera)
      ensures Shot == old(Shot).(cameraAnimated := cameraAnimated)
    {
      if space == Camera {
        cameraAnimated := true;
        Shot := Shot.(cameraAnimated := true);
        OwnChange(this);
      }
    }

    /** The interpolator binding of `set_keyframe`, once the channel exists. */
    method BindInterpolator(space: Space, attrib: string)
      requires Valid() && attrib in keyframes.Get(space)
      modifies this`interpolators, this`Shot
      ensures Valid() && interpolators == old(interpolators).Put(space, BindOnKeyframe(old(interpolators).Get(space), attrib))
      ensures Shot == old(Shot).(interpolators := interpolators)
    {
      interpolators := interpolators.Put(space, BindOnKeyframe(interpolators.Get(space), attrib));
      Shot := Shot.(interpolators := interpolators);
      OwnChange(this);
    }

    /** A keyframe at `t` past the final timestamp moves it to `t` (and
        then, with a panel, recomputes it). */
    method CatchUp(t: real)
      requires Valid()
      modifies Repr - {this}, this`finalTimestamp, this`Sp
      ensures Valid() && Repr == old(Repr) && Shot == old(Shot)
      ensures Sp == KeyframeSpans(old(Sp), t)
    {
      if t > finalTimestamp {
        finalTimestamp := t;
        Sp := Sp.(final := t);
        OwnChange(this);
        if hasPanel {
          var final := UpdateFinalTimestamp();
        }
      }
    }

    /** `set_keyframes(attrib, keyframes, is_camera)`: `set_keyframe` on
        each entry in turn, each a value without control points; an update
        that fails stops the run, and `stored` entries were written by
        then. */
    method SetKeyframes(space: Space, attrib: string, ks: seq<(real, seq<real>)>, now: real)
      returns (effects: seq<Event<Timeline?>>, ok: bool, ghost stored: nat)
      requires Valid()
      modifies Repr - {this}, this`keyframes, this`interpolators, this`cameraAnimated, this`clock, this`finalTimestamp,
               this`addedToScene, this`camera, this`Shot, this`Sp
      ensures Valid() && Repr == old(Repr)
      ensures stored <= |ks| && (ok ==> stored == |ks|)
      ensures keyframes == old(keyframes).Put(space, StoreAll(old(keyframes).Get(space), attrib, ks[..stored]))
      ensures interpolators == if stored == 0 then old(interpolators)
                               else old(interpolators).Put(space, BindOnKeyframe(old(interpolators).Get(space), attrib))
      ensures old(ReadyFor(Shot, space)) ==>
                Outcome(effects, ok, Shot, Sp) == KeyframesOutcome(old(Shot), old(Sp), space, attrib, ks, now)
    {
      effects, ok, stored := [], true, 0;
      ghost var ready := ReadyFor(Shot, space);
      ghost var full := if ready then KeyframesOutcome(Shot, Sp, space, attrib, ks, now) else Outcome([], true, Shot, Sp);
      if ready {
        KeyframesBounds(Shot, Sp, space, attrib, ks, now, []);
      }
      var i := 0;
      while i < |ks| && ok
        invariant i <= |ks| && stored == i && Valid() && Repr == old(Repr)
        invariant StoredFirst(old(keyframes), old(interpolators), space, attrib, ks, i)
        invariant ready && ok ==> FoldsTo(full, effects, space, attrib, ks, i, now)
        invariant ready && !ok ==> full == Outcome(effects, false, Shot, Sp)
      {
        var more;
        more, ok := SetKeyframesStep(space, attrib, ks, i, now, old(keyframes), old(interpolators), ready, full, effects);
        effects := effects + more;
        i, stored := i + 1, i + 1;
      }
      if ready && ok {
        KeyframesBounds(Shot, Sp, space, attrib, ks, now, effects);
      }
    }

    /** The tables hold `kf0` and `ip0` after `set_keyframes` has stored
        the first `i` entries. */
    ghost predicate StoredFirst(kf0: Spaces<map<string, Channel>>, ip0: Spaces<map<string, Interpolator>>, space: Space,
                                attrib: string, ks: seq<(real, seq<real>)>, i: nat)
      reads this`keyframes, this`interpolators
    {
      i <= |ks|
      && keyframes == kf0.Put(space, StoreAll(kf0.Get(space), attrib, ks[..i]))
      && interpolators == if i == 0 then ip0 else ip0.Put(space, BindOnKeyframe(ip0.Get(space), attrib))
    }

    /** `full` is what `set_keyframes` on all entries comes to, once `done`
        was emitted and the first `i` entries were stored. */
    ghost predicate FoldsTo(full: Outcome<Timeline?>, done: seq<Event<Timeline?>>, space: Space, attrib: string,
                            ks: seq<(real, seq<real>)>, i: nat, now: real)
      reads this`Shot, this`Sp
    {
      i <= |ks| && ReadyFor(Shot, space) && Shot.clock.speed > 0.0 && WellTimed(Sp)
      && full == Prefixed(done, KeyframesOutcome(Shot, Sp, space, attrib, ks[i..], now))
    }

    /** One entry of `set_keyframes`, after the first `i` were stored and
        `done` emitted, carrying the fold `full` over all entries on. */
    method SetKeyframesStep(space: Space, attrib: string, ks: seq<(real, seq<real>)>, i: nat, now: real,
                            ghost kf0: Spaces<map<string, Channel>>, ghost ip0: Spaces<map<string, Interpolator>>,
                            ghost ready: bool, ghost full: Outcome<Timeline?>, ghost done: seq<Event<Timeline?>>)
      returns (effects: seq<Event<Timeline?>>, ok: bool)
      requires Valid() && i < |ks|
      requires StoredFirst(kf0, ip0, space, attrib, ks, i)
      requires ready ==> FoldsTo(full, done, space, attrib, ks, i, now)
      modifies Repr - {this}, this`keyframes, this`interpolators, this`cameraAnimated, this`clock, this`finalTimestamp,
               this`addedToScene, this`camera, this`Shot, this`Sp
      ensures Valid() && Repr == old(Repr)
      ensures StoredFirst(kf0, ip0, space, attrib, ks, i + 1)
      ensures ready && ok ==> FoldsTo(full, done + effects, space, attrib, ks, i + 1, now)
      ensures ready && !ok ==> full == Outcome(done + effects, false, Shot, Sp)
    {
      ghost var n, sp := Shot, Sp;
      effects, ok := StoreEntry(space, attrib, ks, i, now, kf0, ip0);
      if ready {
        KeyframesCarry(full, done, n, sp, space, attrib, ks, i, now, Outcome(effects, ok, Shot, Sp));
      }
    }

    /** `set_keyframe` on entry `i` of `set_keyframes`. */
    method StoreEntry(space: Space, attrib: string, ks: seq<(real, seq<real>)>, i: nat, now: real,
                      ghost kf0: Spaces<map<string, Channel>>, ghost ip0: Spaces<map<string, Interpolator>>)
      returns (effects: seq<Event<Timeline?>>, ok: bool)
      requires Valid() && i < |ks|
      requires StoredFirst(kf0, ip0, space, attrib, ks, i)
      modifies Repr - {this}, this`keyframes, this`interpolators, this`cameraAnimated, this`clock, this`finalTimestamp,
               this`addedToScene, this`camera, this`Shot, this`Sp
      ensures Valid() && Repr == old(Repr)
      ensures StoredFirst(kf0, ip0, space, attrib, ks, i + 1)
      ensures old(ReadyFor(Shot, space)) ==>
                Outcome(effects, ok, Shot, Sp) == KeyframeOutcome(old(Shot), old(Sp), space, attrib, ks[i].0, Plain(ks[i].1), now)
    {
      BindOnKeyframeTwice(ip0.Get(space), attrib);
      StoreAllNext(kf0.Get(space), attrib, ks, i);
      if ReadyFor(Shot, space) {
        KeyframeOutcomeKeeps(Shot, Sp, space, attrib, ks[i].0, Plain(ks[i].1), now);
      }
      effects, ok := SetKeyframe(space, attrib, ks[i].0, Plain(ks[i].1), now);
    }

    /** `set_rotation(timestamp, rotation)`: the `rotation` keyframe gets
        the quaternion of `RotationValue`; a rotation of another size is
        skipped with a warning, and three components that are not a flat
        array raise. Neither of those changes anything. */
    method SetRotation(t: real, rotation: seq<real>, flat: bool, toQuat: seq<real> -> seq<real>, now: real)
      returns (effects: seq<Event<Timeline?>>, ok: bool)
      requires Valid()
      modifies Repr - {this}, this`keyframes, this`interpolators, this`cameraAnimated, this`clock, this`finalTimestamp,
               this`addedToScene, this`camera, this`Shot, this`Sp
      ensures Valid() && Repr == old(Repr)
      ensures !RotationValue(rotation, flat, toQuat).Quaternion? ==>
                effects == [] && ok == RotationValue(rotation, flat, toQuat).Skipped?
                && keyframes == old(keyframes) && interpolators == old(interpolators)
                && Shot == old(Shot) && Sp == old(Sp)
      ensures RotationValue(rotation, flat, toQuat).Quaternion? ==>
                keyframes == old(keyframes).Put(Attribs, StoreKeyframe(old(keyframes).Get(Attribs), "rotation", t,
                                                                      Plain(RotationValue(rotation, flat, toQuat).q)))
      ensures RotationValue(rotation, flat, toQuat).Quaternion?
              && old(Settled(KeyframeNode(Shot, Attribs, "rotation", t, Plain(RotationValue(rotation, flat, toQuat).q)))) ==>
                Outcome(effects, ok, Shot, Sp)
                == KeyframeOutcome(old(Shot), old(Sp), Attribs, "rotation", t, Plain(RotationValue(rotation, flat, toQuat).q), now)
    {
      var v := RotationValue(rotation, flat, toQuat);
      if !v.Quaternion? {
        return [], v.Skipped?;
      }
      effects, ok := SetKeyframe(Attribs, "rotation", t, Plain(v.q), now);
    }

    /** `add_to_scene(ren)`: the members join the scene and the static
        actors are handed to the renderer; then every child timeline is,
        which runs the child's own `add_to_scene(ren)`; then the timeline
        records the scene, counts as added, and runs a forced update. A
        child that fails stops the call before the scene is recorded. */
    method AddToScene(ren: Scene, now: real) returns (effects: seq<Event<Timeline?>>, ok: bool)
      requires Valid()
      modifies Repr - {this}, this`scene, this`clock, this`finalTimestamp, this`addedToScene, this`camera,
               this`Shot, this`Sp
      ensures Valid() && Repr == old(Repr)
      ensures scene == Some(ren) || (!ok && scene == old(scene))
      ensures old(Joinable(Shot, Sp)) ==>
                Outcome(effects, ok, Shot, Sp) == AddToSceneOutcome(old(Shot), old(Sp), ren, now)
      decreases Repr, 2
    {
      var head := [EnterScene(this)] + StaticAdds(this, staticActors);
      var kids;
      kids, ok := JoinChildren(ren, now);
      effects := head + kids;
      if !ok {
        return;
      }
      JoinScene(ren);
      var more;
      more, ok := UpdateAnimation(None, true, None, now);
      effects := effects + more;
    }

    /** The children's part of `add_to_scene`: every child timeline handed
        to the renderer in order, which runs its own `add_to_scene(ren)`,
        stopping at the first that fails. */
    method JoinChildren(ren: Scene, now: real) returns (effects: seq<Event<Timeline?>>, ok: bool)
      requires Valid()
      modifies Repr - {this}, this`Shot, this`Sp
      ensures Valid() && Repr == old(Repr)
      ensures Shot == old(Shot).(children := Shot.children) && Sp == old(Sp).(children := Sp.children)
      ensures JoinableKids(old(Shot.children), old(Sp.children)) ==>
                JoinFirst(old(Shot.children), old(Sp.children), |timelines|, ren, now)
                == Joined(effects, ok, Shot.children, Sp.children)
      decreases Repr, 1, 1
    {
      ghost var cs, ss := Shot.children, Sp.children;
      ghost var ready := JoinableKids(cs, ss);
      ghost var steps := if ready then Prefixes(cs, ss, ren, now) else [];
      effects, ok := JoinEach(ren, now, cs, ss, steps, ready);
    }

    /** The loop of `JoinChildren`; `steps[i]` is what the first `i`
        children come to. */
    method JoinEach(ren: Scene, now: real, ghost cs: seq<Node<Timeline?>>, ghost ss: seq<Span>,
                    ghost steps: seq<Joined<Timeline?>>, ghost ready: bool)
      returns (effects: seq<Event<Timeline?>>, ok: bool)
      requires Valid() && cs == Shot.children && ss == Sp.children
      requires ready ==> Chain(steps, cs, ss, ren, now)
      modifies Repr - {this}, this`Shot, this`Sp
      ensures Valid() && Repr == old(Repr) && OnlyChildren(old(Shot), old(Sp))
      ensures ready ==> steps[|cs|] == Joined(effects, ok, Shot.children, Sp.children)
      decreases Repr, 1, 0
    {
      effects, ok := [], true;
      if ready {
        ChainStart(steps, cs, ss, ren, now);
      }
      var i := 0;
      while i < |timelines| && ok
        invariant 0 <= i <= |timelines| == |cs| == |ss|
        invariant Valid() && Repr == old(Repr) && OnlyChildren(old(Shot), old(Sp)) && Untouched(cs, ss, i)
        invariant ready ==> steps[i] == Joined(effects, ok, Shot.children, Sp.children)
      {
        effects, ok := JoinKid(i, ren, now, cs, ss, steps, ready, effects);
        i := i + 1;
      }
      if ready && !ok {
        ChainStops(steps, cs, ss, ren, now, i);
      }
    }

    /** The snapshots differ from `s0` and `p0` at most in the children. */
    ghost predicate OnlyChildren(s0: Node<Timeline?>, p0: Span)
      reads this`Shot, this`Sp
    {
      Shot == s0.(children := Shot.children) && Sp == p0.(children := Sp.children)
    }

    /** The children from `i` on still have the snapshots `cs` and `ss`. */
    ghost predicate Untouched(cs: seq<Node<Timeline?>>, ss: seq<Span>, i: nat)
      reads this`Shot, this`Sp
    {
      |Shot.children| == |cs| && |Sp.children| == |ss|
      && forall j :: i <= j < |cs| && j < |ss| ==> Shot.children[j] == cs[j] && Sp.children[j] == ss[j]
    }

    /** One step of `JoinChildren`: child `k` joins the scene. */
    method JoinKid(k: nat, ren: Scene, now: real, ghost cs: seq<Node<Timeline?>>, ghost ss: seq<Span>,
                   ghost steps: seq<Joined<Timeline?>>, ghost ready: bool, effects: seq<Event<Timeline?>>)
      returns (next: seq<Event<Timeline?>>, ok: bool)
      requires Valid() && k < |timelines| == |cs| == |ss| && Untouched(cs, ss, k)
      requires ready ==> Chain(steps, cs, ss, ren, now)
      requires ready ==> steps[k] == Joined(effects, true, Shot.children, Sp.children)
      modifies Repr - {this}, this`Shot, this`Sp
      ensures Valid() && Repr == old(Repr) && OnlyChildren(old(Shot), old(Sp)) && Untouched(cs, ss, k + 1)
      ensures ready ==> steps[k + 1] == Joined(next, ok, Shot.children, Sp.children)
      decreases Repr, 0, 1
    {
      if ready {
        assert Prefix(steps, cs, ss, ren, now, k) && Prefix(steps, cs, ss, ren, now, k + 1);
      }
      var es;
      es, ok := AddKid(k, ren, now);
      next := effects + es;
    }

    /** Child `k`'s `add_to_scene(ren)`, and its new snapshots in this
        timeline's. */
    method AddKid(k: nat, ren: Scene, now: real) returns (es: seq<Event<Timeline?>>, ok: bool)
      requires Valid() && k < |timelines|
      modifies Repr - {this}, this`Shot, this`Sp
      ensures Valid() && Repr == old(Repr) && |Shot.children| == |old(Shot.children)|
      ensures Shot == old(Shot).(children := old(Shot.children)[k := Shot.children[k]])
      ensures Sp == old(Sp).(children := old(Sp.children)[k := Sp.children[k]])
      ensures old(Joinable(Shot.children[k], Sp.children[k])) ==>
                Outcome(es, ok, Shot.children[k], Sp.children[k])
                == AddToSceneOutcome(old(Shot.children[k]), old(Sp.children[k]), ren, now)
      decreases Repr, 0, 0
    {
      KidFacts(k);
      var c := timelines[k];
      es, ok := c.AddToScene(ren, now);
      Shot, Sp := Shot.(children := Shot.children[k := c.Shot]), Sp.(children := Sp.children[k := c.Sp]);
      assert Config() == old(Config()) && timelines[k] == c;
      ChildChange(k);
    }

    /** The scene fields `add_to_scene` writes. */
    method JoinScene(ren: Scene)
      requires Valid()
      modifies this`scene, this`addedToScene, this`Shot
      ensures Valid() && scene == Some(ren) && addedToScene
      ensures Shot == old(Shot).(scene := Some(ren), addedToScene := true)
    {
      scene, addedToScene := Some(ren), true;
      Shot := Shot.(scene := scene, addedToScene := true);
      OwnChange(this);
    }

    /** `add_actor(actor, static)` on one actor: a static actor joins the
        static actors (added to the scene, never animated); any other joins
        the controlled actors. */
    method AddActor(a: Actor, isStatic: bool)
      requires Valid()
      modifies this`items, this`staticActors, this`Shot
      ensures Valid()
      ensures isStatic ==> staticActors == old(staticActors) + [a] && items == old(items)
      ensures !isStatic ==> items == old(items) + [a] && staticActors == old(staticActors)
      ensures Shot == old(Shot).(actors := items, staticActors := staticActors)
    {
      if isStatic {
        staticActors := staticActors + [a];
      } else {
        items := items + [a];
      }
      Shot := Shot.(actors := items, staticActors := staticActors);
      OwnChange(this);
    }

    /** `add_actor` on a list of actors: each in turn. */
    method AddActors(actors: seq<Actor>, isStatic: bool)
      requires Valid()
      modifies this`items, this`staticActors, this`Shot
      ensures Valid()
      ensures isStatic ==> staticActors == old(staticActors) + actors && items == old(items)
      ensures !isStatic ==> items == old(items) + actors && staticActors == old(staticActors)
      ensures Shot == old(Shot).(actors := items, staticActors := staticActors)
    {
      for i := 0 to |actors|
        invariant Valid()
        invariant isStatic ==> staticActors == old(staticActors) + actors[..i] && items == old(items)
        invariant !isStatic ==> items == old(items) + actors[..i] && staticActors == old(staticActors)
        invariant Shot == old(Shot).(actors := items, staticActors := staticActors)
      {
        assert actors[..i + 1] == actors[..i] + [actors[i]];
        AddActor(actors[i], isStatic);
      }
      assert actors[..|actors|] == actors;
    }

    /** `add_timeline(timeline)`: the timeline becomes the last child. */
    method AddTimeline(tl: Timeline)
      requires Valid() && tl.Valid() && tl.Repr !! Repr
      modifies this`timelines, this`Repr, this`Shot, this`Sp
      ensures Valid() && timelines == old(timelines) + [tl] && Repr == old(Repr) + tl.Repr
      ensures Shot == old(Shot).(children := old(Shot.children) + [tl.Shot])
      ensures Sp == old(Sp).(children := old(Sp.children) + [tl.Sp])
    {
      timelines := timelines + [tl];
      Repr := Repr + tl.Repr;
      Shot := Shot.(children := Shot.children + [tl.Shot]);
      Sp := Sp.(children := Sp.children + [tl.Sp]);
      Adopted(tl);
    }

    /** `add(item)`: lists are walked in order and recursively; actors go to
        `add_actor`, timelines to `add_timeline`; any other object raises
        (`ok` false) after everything before it was added. */
    method Add(it: Item) returns (ok: bool)
      requires Valid() && Adoptable(LeafTimelines(Leaves(it)), Repr)
      modifies this`items, this`staticActors, this`timelines, this`Repr, this`Shot, this`Sp
      ensures Valid() && ok == AllSupported(Leaves(it))
      ensures items == old(items) + LeafActors(Accepted(Leaves(it)))
      ensures timelines == old(timelines) + LeafTimelines(Accepted(Leaves(it)))
      ensures Repr == old(Repr) + ReprsOf(LeafTimelines(Accepted(Leaves(it))))
      ensures Shot == old(Shot).(actors := items, children := Shot.children) && Sp == old(Sp).(children := Sp.children)
      decreases it, 0
    {
      match it
      case ActorItem(a) =>
        AddActor(a, false);
        ok := true;
      case TimelineItem(tl) =>
        assert [it][1..] == [];
        assert LeafTimelines(Leaves(it)) == [tl];
        assert ReprsOf([tl]) == tl.Repr + ReprsOf([]);
        AddTimeline(tl);
        ok := true;
      case Unsupported =>
        ok := false;
      case ItemList(xs) =>
        ok := AddAll(xs);
    }

    /** The list case of `add`: each element in turn, stopping at the first
        that raises. */
    method AddAll(xs: seq<Item>) returns (ok: bool)
      requires Valid() && Adoptable(LeafTimelines(ListLeaves(xs)), Repr)
      modifies this`items, this`staticActors, this`timelines, this`Repr, this`Shot, this`Sp
      ensures Valid() && ok == AllSupported(ListLeaves(xs))
      ensures items == old(items) + LeafActors(Accepted(ListLeaves(xs)))
      ensures timelines == old(timelines) + LeafTimelines(Accepted(ListLeaves(xs)))
      ensures Repr == old(Repr) + ReprsOf(LeafTimelines(Accepted(ListLeaves(xs))))
      ensures Shot == old(Shot).(actors := items, children := Shot.children) && Sp == old(Sp).(children := Sp.children)
      decreases xs, 2
    {
      if |xs| == 0 {
        return true;
      }
      ghost var l, r := Leaves(xs[0]), ListLeaves(xs[1..]);
      ghost var tl := LeafTimelines(l);
      AcceptedFirst(l, r);
      ok := AddHead(xs[0], LeafTimelines(r));
      if !ok {
        return;
      }
      label Mid:
      ok := AddAll(xs[1..]);
      ReprsKept@Mid(tl);
      ghost var acc := Accepted(r);
      ReprsOfConcat(tl, LeafTimelines(acc));
      Regroup(old(items), LeafActors(l), LeafActors(acc));
      Regroup(old(timelines), tl, LeafTimelines(acc));
    }

    /** One element of a list given to `add`; the timelines `rest` of the
        elements after it stay adoptable when it is accepted. */
    method AddHead(it: Item, ghost rest: seq<Timeline>) returns (ok: bool)
      requires Valid() && Adoptable(LeafTimelines(Leaves(it)) + rest, Repr)
      modifies this`items, this`staticActors, this`timelines, this`Repr, this`Shot, this`Sp
      ensures Valid() && ok == AllSupported(Leaves(it))
      ensures items == old(items) + LeafActors(Accepted(Leaves(it)))
      ensures timelines == old(timelines) + LeafTimelines(Accepted(Leaves(it)))
      ensures Repr == old(Repr) + ReprsOf(LeafTimelines(Accepted(Leaves(it))))
      ensures ok ==> Adoptable(rest, Repr)
      ensures this !in LeafTimelines(Leaves(it))
      ensures Shot == old(Shot).(actors := items, children := Shot.children) && Sp == old(Sp).(children := Sp.children)
      decreases it, 1
    {
      ghost var tl := LeafTimelines(Leaves(it));
      AdoptableHead(tl, rest, Repr);
      assert this !in tl by {
        assert this in Repr && forall k :: 0 <= k < |tl| ==> tl[k] in tl[k].Repr;
      }
      ghost var next := Repr + ReprsOf(tl);
      label Pre:
      ok := Add(it);
      if ok {
        AdoptableKept@Pre(tl);
        assert Accepted(Leaves(it)) == Leaves(it);
        assert Repr == next;
        AdoptableKept@Pre(rest);
      }
    }

    /** `remove_timelines`: every child is dropped. */
    method RemoveTimelines()
      requires Valid()
      modifies this`timelines, this`Repr, this`Shot, this`Sp
      ensures Valid() && timelines == [] && Repr == {this}
      ensures Shot == old(Shot).(children := []) && Sp == old(Sp).(children := [])
    {
      timelines := [];
      Repr := {this};
      Shot := Shot.(children := []);
      Sp := Sp.(children := []);
    }

    /** `remove_actor(actor)`: the first occurrence of `a` leaves the
        controlled actors; `ok` is false (the source raises) when there is
        none. */
    method RemoveActor(a: Actor) returns (ok: bool)
      requires Valid()
      modifies this`items, this`Shot
      ensures Valid() && ok == (a in old(items))
      ensures ok ==> items == old(items)[..FirstIndex(old(items), a)] + old(items)[FirstIndex(old(items), a) + 1..]
      ensures !ok ==> items == old(items)
      ensures Shot == old(Shot).(actors := items)
    {
      var i := 0;
      while i < |items| && items[i] != a
        invariant i <= |items| && forall j :: 0 <= j < i ==> items[j] != a
      {
        i := i + 1;
      }
      if i == |items| {
        return false;
      }
      FirstIndexIs(items, a, i);
      items := items[..i] + items[i + 1..];
      Shot := Shot.(actors := items);
      OwnChange(this);
      ok := true;
    }

    /** `remove_actors`: every controlled actor is dropped. */
    method RemoveActors()
      requires Valid()
      modifies this`items, this`Shot
      ensures Valid() && items == []
      ensures Shot == old(Shot).(actors := [])
    {
      items := [];
      Shot := Shot.(actors := []);
      OwnChange(this);
    }

    /** Appending a valid timeline that owns a part of the heap of its own
        as the last child keeps the parent valid. */
    twostate lemma Adopted(tl: Timeline)
      requires old(Valid()) && old(tl.Valid()) && old(tl.Repr) !! old(Repr)
      requires unchanged(old(Repr) - {this}) && unchanged(old(tl.Repr))
      requires unchanged(this`keyframes, this`interpolators, this`hasPanel, this`clock, this`loop, this`length,
                         this`finalTimestamp, this`staticActors, this`items, this`camera, this`scene,
                         this`addedToScene, this`addToSceneTime, this`removeFromSceneTime, this`cameraAnimated)
      requires timelines == old(timelines) + [tl] && Repr == old(Repr) + old(tl.Repr)
      requires Shot == old(Shot).(children := old(Shot.children) + [tl.Shot])
      requires Sp == old(Sp).(children := old(Sp.children) + [tl.Sp])
      ensures Valid()
    {
      assert tl.Valid() by {
        assert unchanged(old(tl.Repr));
      }
      forall j | 0 <= j < |old(timelines)|
        ensures timelines[j].Valid() && timelines[j].Shot == old(timelines[j].Shot) && timelines[j].Sp == old(timelines[j].Sp)
        ensures timelines[j].Repr == old(timelines[j].Repr) && timelines[j].Repr <= old(Repr)
      {
        var c := timelines[j];
        assert unchanged(old(c.Repr));
      }
      assert Own();
      forall i, j | 0 <= i < j < |timelines|
        ensures timelines[i].Repr !! timelines[j].Repr
      {
        if j < |old(timelines)| {
          assert old(timelines[i].Repr !! timelines[j].Repr);
        } else {
          assert timelines[j] == tl && tl.Repr == old(tl.Repr);
        }
      }
    }

    /** A change confined to child `k`'s part of the heap that keeps that
        child valid, with the child's new snapshots copied into the parent's,
        keeps the parent valid. */
    twostate lemma ChildChange(k: nat)
      requires old(Valid()) && k < |old(timelines)|
      requires Config() == old(Config())
      requires unchanged(old(Repr) - old(timelines[k].Repr) - {this})
      requires timelines[k].Valid() && timelines[k].Repr == old(timelines[k].Repr)
      requires Shot == old(Shot).(children := old(Shot.children)[k := timelines[k].Shot])
      requires Sp == old(Sp).(children := old(Sp.children)[k := timelines[k].Sp])
      ensures Valid()
    {
      forall j | 0 <= j < |timelines| && j != k
        ensures timelines[j].Valid()
        ensures timelines[j].Shot == old(timelines[j].Shot) && timelines[j].Sp == old(timelines[j].Sp)
      {
        var c := timelines[j];
        assert old(c.Repr) !! old(timelines[k].Repr);
        assert unchanged(old(c.Repr));
      }
    }
  }

  /** The loop state of `UpdateChildren` after `i` children: they are
      updated, the rest untouched, and `effects` holds their events. */
  ghost predicate ChildrenDone(cs: seq<Node<Timeline?>>, ss: seq<Span>, i: nat, at: real, inScene: bool,
                               kids: seq<Node<Timeline?>>, sps: seq<Span>, effects: seq<Event<Timeline?>>)
  {
    AllSettled(cs) && i <= |cs| == |ss|
    && kids == TickChildren(cs, 0, at, inScene)[..i] + cs[i..]
    && sps == TickKids(ss, 0)[..i] + ss[i..]
    && effects + ChildrenEffects(cs, i, at, inScene) == ChildrenEffects(cs, 0, at, inScene)
  }

  lemma ChildrenStart(cs: seq<Node<Timeline?>>, ss: seq<Span>, at: real, inScene: bool)
    requires AllSettled(cs) && |cs| == |ss|
    ensures ChildrenDone(cs, ss, 0, at, inScene, cs, ss, [])
  {
  }

  /** Before child `i` runs, it is still the original. */
  lemma ChildrenAt(cs: seq<Node<Timeline?>>, ss: seq<Span>, i: nat, at: real, inScene: bool,
                   kids: seq<Node<Timeline?>>, sps: seq<Span>, effects: seq<Event<Timeline?>>)
    requires ChildrenDone(cs, ss, i, at, inScene, kids, sps, effects) && i < |cs|
    ensures kids[i] == cs[i] && sps[i] == ss[i] && Settled(cs[i])
  {
  }

  /** Child `i`'s pass moves the loop state on by one child. */
  lemma ChildrenStep(cs: seq<Node<Timeline?>>, ss: seq<Span>, i: nat, at: real, inScene: bool,
                     kids: seq<Node<Timeline?>>, sps: seq<Span>, effects: seq<Event<Timeline?>>,
                     es: seq<Event<Timeline?>>, kid: Node<Timeline?>, sp: Span)
    requires ChildrenDone(cs, ss, i, at, inScene, kids, sps, effects) && i < |cs|
    requires es == TickEffects(cs[i], at, true, Some(inScene)) && kid == TickNode(cs[i], at, true, Some(inScene))
    requires sp == TickSpans(ss[i], true)
    ensures ChildrenDone(cs, ss, i + 1, at, inScene, kids[i := kid], sps[i := sp], effects + es)
  {
    TickChildAt(cs, i, at, inScene);
    Splice(TickChildren(cs, 0, at, inScene), cs, i);
    SpansStep(ss, i, sps, sp);
    EffectsStep(cs, i, at, inScene, effects, es);
  }

  lemma SpansStep(ss: seq<Span>, i: nat, sps: seq<Span>, sp: Span)
    requires i < |ss| && sps == TickKids(ss, 0)[..i] + ss[i..] && sp == TickSpans(ss[i], true)
    ensures sps[i := sp] == TickKids(ss, 0)[..i + 1] + ss[i + 1..]
  {
    TickKidAt(ss, i);
    Splice(TickKids(ss, 0), ss, i);
  }

  lemma EffectsStep(cs: seq<Node<Timeline?>>, i: nat, at: real, inScene: bool, effects: seq<Event<Timeline?>>,
                    es: seq<Event<Timeline?>>)
    requires AllSettled(cs) && i < |cs|
    requires effects + ChildrenEffects(cs, i, at, inScene) == ChildrenEffects(cs, 0, at, inScene)
    requires es == TickEffects(cs[i], at, true, Some(inScene))
    ensures effects + es + ChildrenEffects(cs, i + 1, at, inScene) == ChildrenEffects(cs, 0, at, inScene)
  {
    var rest := ChildrenEffects(cs, i + 1, at, inScene);
    assert ChildrenEffects(cs, i, at, inScene) == es + rest;
    Regroup(effects, es, rest);
  }

  lemma Regroup<T>(a: seq<T>, b: seq<T>, c: seq<T>)
    ensures a + (b + c) == a + b + c
  {
  }

  /** After the last child, the loop state is the whole pass. */
  lemma ChildrenEnd(cs: seq<Node<Timeline?>>, ss: seq<Span>, at: real, inScene: bool,
                    kids: seq<Node<Timeline?>>, sps: seq<Span>, effects: seq<Event<Timeline?>>)
    requires ChildrenDone(cs, ss, |cs|, at, inScene, kids, sps, effects)
    ensures kids == TickChildren(cs, 0, at, inScene) && sps == TickKids(ss, 0)
    ensures effects == ChildrenEffects(cs, 0, at, inScene)
  {
    assert TickChildren(cs, 0, at, inScene)[..|cs|] == TickChildren(cs, 0, at, inScene);
    assert TickKids(ss, 0)[..|ss|] == TickKids(ss, 0);
  }

  /** Replacing entry `i` of `kids[..i] + before[i..]` by `kids[i]` moves
      the seam one place to the right. */
  lemma Splice<T>(kids: seq<T>, before: seq<T>, i: nat)
    requires i < |kids| == |before|
    ensures (kids[..i] + before[i..])[i := kids[i]] == kids[..i + 1] + before[i + 1..]
  {
  }

  /** Writing back the value an entry already holds changes nothing. */
  lemma SameAt<T>(s: seq<T>, k: nat)
    requires k < |s|
    ensures s[k := s[k]] == s
  {
  }

  /** `steps[j]` is what the children's part of `add_to_scene` comes to
      after the first `j` of the children `cs`. */
  ghost predicate Prefix(steps: seq<Joined<Timeline?>>, cs: seq<Node<Timeline?>>, ss: seq<Span>,
                         ren: Scene, now: real, j: nat)
  {
    JoinableKids(cs, ss) && j <= |cs| && j < |steps| && steps[j] == JoinFirst(cs, ss, j, ren, now)
  }

  /** `steps` lists what the children's part comes to after each prefix. */
  ghost predicate Chain(steps: seq<Joined<Timeline?>>, cs: seq<Node<Timeline?>>, ss: seq<Span>,
                        ren: Scene, now: real)
  {
    |steps| == |cs| + 1 && forall j :: 0 <= j <= |cs| ==> Prefix(steps, cs, ss, ren, now, j)
  }

  /** What the children's part comes to after each prefix of `cs`. */
  function Prefixes(cs: seq<Node<Timeline?>>, ss: seq<Span>, ren: Scene, now: real): (steps: seq<Joined<Timeline?>>)
    requires JoinableKids(cs, ss)
    ensures Chain(steps, cs, ss, ren, now)
  {
    seq(|cs| + 1, j requires 0 <= j <= |cs| => JoinFirst(cs, ss, j, ren, now))
  }

  lemma ChainStart(steps: seq<Joined<Timeline?>>, cs: seq<Node<Timeline?>>, ss: seq<Span>, ren: Scene, now: real)
    requires Chain(steps, cs, ss, ren, now)
    ensures steps[0] == Joined([], true, cs, ss)
  {
    assert Prefix(steps, cs, ss, ren, now, 0);
  }

  /** After a child fails, the rest are not reached. */
  lemma ChainStops(steps: seq<Joined<Timeline?>>, cs: seq<Node<Timeline?>>, ss: seq<Span>, ren: Scene, now: real,
                   i: nat)
    requires Chain(steps, cs, ss, ren, now) && i <= |cs| && !steps[i].ok
    ensures steps[|cs|] == steps[i]
  {
    assert Prefix(steps, cs, ss, ren, now, i) && Prefix(steps, cs, ss, ren, now, |cs|);
    JoinFirstStops(cs, ss, i, |cs|, ren, now);
  }

  /** A change to a timeline's own fields that keeps `Own` keeps `Valid`. */
  twostate lemma OwnChange(tl: Timeline)
    requires old(tl.Valid()) && tl.Own()
    requires tl.timelines == old(tl.timelines) && tl.Repr == old(tl.Repr)
    requires unchanged(old(tl.Repr) - {tl})
    requires tl.Shot.children == old(tl.Shot.children) && tl.Sp.children == old(tl.Sp.children)
    ensures tl.Valid()
  {
    forall j | 0 <= j < |tl.timelines|
      ensures tl.timelines[j].Valid()
      ensures tl.timelines[j].Shot == old(tl.timelines[j].Shot) && tl.timelines[j].Sp == old(tl.timelines[j].Sp)
    {
      var c := tl.timelines[j];
      assert unchanged(old(c.Repr));
    }
  }
}
