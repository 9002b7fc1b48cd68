/** Two feet under a moving suit, each planted or swinging, frame by frame. */
module Gait {
  import opened Wrappers
  import opened Vectors

  const STEP_BASE: real := 2.5
  const STEP_PER_SPEED: real := 0.35
  const STEP_MAX: real := 8.8
  const WALK_DUTY: real := 0.62
  const RUN_DUTY: real := 0.38
  const RUN_FROM: real := 12.0
  const WALK_APEX: real := 0.9
  const RUN_APEX: real := 2.2
  const STANDING: real := 0.4
  const SETTLE_OFF: real := 1.2
  const SETTLE_TIME: real := 0.35
  const PUSH_OFF: real := 0.34
  const TOE_OFF: real := 0.34
  const SETTLE_APEX: real := 0.4
  /** How fast a settling step goes. */
  const SETTLE_RATE: real := 1.0 / SETTLE_TIME

  /** Lengths, and the lift of an arc (0 at its ends), are the renderer's. */
  datatype World = World(dist: (Vec3, Vec3) -> real, lift: real -> real)

  /** What a frame says of the suit: its body, where each foot would rest on it, its speed along the ground
      and that velocity, up, and the surface query that puts a point on the ground. */
  datatype Stand = Stand(body: int, left: Vec3, right: Vec3, speed: real, ahead: Vec3, up: Vec3, snap: Vec3 -> Vec3) {
    function Rest(side: nat): Vec3 {
      if side == 0 then left else right
    }
  }

  datatype Foot = Foot(at: Vec3, planted: bool, push: real, from: Vec3, to: Vec3, swing: real, rate: real, apex: real)

  function RestingFoot(at: Vec3): Foot {
    Foot(at, true, 0.0, ZERO, ZERO, 0.0, 0.0, 0.0)
  }

  function Clamp01(u: real): real {
    if u < 0.0 then 0.0 else if u > 1.0 then 1.0 else u
  }

  function Ease(u: real): real {
    var c := Clamp01(u);
    c * c * (3.0 - 2.0 * c)
  }

  /** The part of a nonnegative number past its whole part. */
  function Fract(x: real): (r: real)
    ensures 0.0 <= r < 1.0
  {
    x - x.Floor as real
  }

  function StepLength(speed: real): (r: real)
    ensures STEP_BASE <= r <= STEP_MAX
  {
    var l := STEP_BASE + STEP_PER_SPEED * speed;
    if l < STEP_BASE then STEP_BASE else if l > STEP_MAX then STEP_MAX else l
  }

  function Duty(speed: real): real {
    if speed >= RUN_FROM then RUN_DUTY else WALK_DUTY
  }

  /** A swing's place: eased from `from` to `to`, raised along `up` by the arc. */
  function Swung(w: World, f: Foot, up: Vec3): Vec3 {
    var u := Clamp01(f.swing);
    f.from.Add(f.to.Sub(f.from).Mul(Ease(u))).Add(up.Mul(f.apex * w.lift(u)))
  }

  // ---- One foot, one frame ----

  /** A foot's place in its cycle. */
  function PlaceOf(phase: real, side: nat): real {
    Fract(phase + 0.5 * side as real)
  }

  function Lifted(s: Stand, side: nat, f: Foot, cycle: real): Foot {
    var d := Duty(s.speed);
    var apex := if s.speed >= RUN_FROM then RUN_APEX else WALK_APEX;
    var reach := if cycle == 0.0 then 0.0 else (1.0 - d) / cycle + d / cycle * 0.5;
    f.(from := f.at, to := s.snap(s.Rest(side).Add(s.ahead.Mul(reach))), planted := false, apex := apex, rate := 0.0)
  }

  /** Walking: a foot at place `p` of its cycle. */
  function WalkFoot(w: World, s: Stand, side: nat, p: real, cycle: real, f: Foot): Foot {
    var d := Duty(s.speed);
    if p < d then
      var down := if f.planted then f else f.(at := s.snap(f.to), planted := true);
      down.(push := Ease((p / d - (1.0 - PUSH_OFF)) / PUSH_OFF))
    else
      var up := (if f.planted || f.rate != 0.0 then Lifted(s, side, f, cycle) else f).(swing := (p - d) / (1.0 - d));
      up.(at := Swung(w, up, s.up), push := 1.0 - Ease(up.swing / TOE_OFF))
  }

  /** Standing: a swing under way, or a walk's cut short, goes on to where it comes down. */
  function Settling(s: Stand, side: nat, dt: real, f: Foot): Foot {
    var g := if f.rate == 0.0
             then f.(rate := SETTLE_RATE, from := f.at, to := s.Rest(side), apex := SETTLE_APEX, swing := 0.0)
             else f;
    g.(swing := g.swing + g.rate * dt)
  }

  function StandFoot(w: World, s: Stand, side: nat, dt: real, f: Foot): Foot {
    var flat := f.(push := 0.0);
    if f.planted then flat
    else
      var g := Settling(s, side, dt, flat);
      if g.swing >= 1.0 then g.(at := s.snap(g.to), planted := true, rate := 0.0)
      else g.(at := Swung(w, g, s.up))
  }

  /** The settling step of a planted foot; how far through its last swing it was stays as it was. */
  function Stepped(s: Stand, side: nat, f: Foot): Foot {
    f.(from := f.at, to := s.Rest(side), planted := false, rate := SETTLE_RATE, apex := SETTLE_APEX)
  }

  function OffRest(w: World, s: Stand, side: nat, f: Foot): real {
    w.dist(f.at, s.Rest(side))
  }

  /** The further of two planted feet from its rest. */
  function Further(w: World, s: Stand, l: Foot, r: Foot): nat {
    if OffRest(w, s, 0, l) >= OffRest(w, s, 1, r) then 0 else 1
  }

  function Fixed(w: World, s: Stand, l: Foot, r: Foot): (Foot, Foot) {
    if !(l.planted && r.planted) then (l, r)
    else if Further(w, s, l, r) == 0
    then (if OffRest(w, s, 0, l) > SETTLE_OFF then (Stepped(s, 0, l), r) else (l, r))
    else (if OffRest(w, s, 1, r) > SETTLE_OFF then (l, Stepped(s, 1, r)) else (l, r))
  }

  // ---- The whole walk ----

  datatype State = State(body: Option<int>, phase: real, left: Foot, right: Foot, footfalls: nat)

  /** Walking, a foot still up at a place where it should be down is put down. */
  predicate WalkLands(s: Stand, p: real, f: Foot) {
    p < Duty(s.speed) && !f.planted
  }

  /** Standing, a foot up comes down once its swing is through. */
  predicate StandLands(s: Stand, side: nat, dt: real, f: Foot) {
    !f.planted && Settling(s, side, dt, f).swing >= 1.0
  }

  function One(b: bool): nat {
    if b then 1 else 0
  }

  function Reset(g: State, s: Stand): State {
    State(Some(s.body), 0.0, RestingFoot(s.left), RestingFoot(s.right), g.footfalls)
  }

  function Cycle(s: Stand): real {
    s.speed / (2.0 * StepLength(s.speed))
  }

  function NextPhase(phase: real, cycle: real, dt: real): (r: real)
    ensures 0.0 <= r < 1.0
  {
    Fract(phase + cycle * dt)
  }

  function WalkStep(w: World, g: State, s: Stand, dt: real): State {
    var cycle := Cycle(s);
    var phase := NextPhase(g.phase, cycle, dt);
    var l := WalkFoot(w, s, 0, PlaceOf(phase, 0), cycle, g.left);
    var r := WalkFoot(w, s, 1, PlaceOf(phase, 1), cycle, g.right);
    State(g.body, phase, l, r,
          g.footfalls + One(WalkLands(s, PlaceOf(phase, 0), g.left)) + One(WalkLands(s, PlaceOf(phase, 1), g.right)))
  }

  function StandStep(w: World, g: State, s: Stand, dt: real): State {
    var l := StandFoot(w, s, 0, dt, g.left);
    var r := StandFoot(w, s, 1, dt, g.right);
    var fixed := Fixed(w, s, l, r);
    State(g.body, g.phase, fixed.0, fixed.1,
          g.footfalls + One(StandLands(s, 0, dt, g.left)) + One(StandLands(s, 1, dt, g.right)))
  }

  function Step(w: World, g: State, s: Stand, dt: real): State {
    if g.body != Some(s.body) then Reset(g, s)
    else if s.speed < STANDING then StandStep(w, g, s, dt)
    else WalkStep(w, g, s, dt)
  }

  class Walker {
    const w: World
    var body: Option<int>
    var phase: real
    const feet: array<Foot>
    var footfalls: nat

    ghost predicate Valid()
      reads this
    {
      feet.Length == 2
    }

    ghost function Abstract(): State
      requires Valid()
      reads this, feet
    {
      State(body, phase, feet[0], feet[1], footfalls)
    }

    constructor (w: World)
      ensures Valid() && fresh(feet) && this.w == w && body == None && footfalls == 0
    {
      this.w := w;
      body, phase, footfalls := None, 0.0, 0;
      feet := new Foot[2](_ => Foot(ZERO, false, 0.0, ZERO, ZERO, 0.0, 0.0, 0.0));
    }

    method StartOver(s: Stand)
      requires Valid()
      modifies this, feet
      ensures Valid() && Abstract() == Reset(old(Abstract()), s)
    {
      body, phase := Some(s.body), 0.0;
      feet[0], feet[1] := RestingFoot(s.Rest(0)), RestingFoot(s.Rest(1));
    }

    method Advance(s: Stand, dt: real)
      requires Valid()
      modifies this, feet
      ensures Valid() && Abstract() == Step(w, old(Abstract()), s, dt)
    {
      hide WalkFoot, StandStep, NextPhase, Cycle, PlaceOf;
      if body != Some(s.body) {
        StartOver(s);
        return;
      }
      if s.speed < STANDING {
        StandStill(s, dt);
        return;
      }
      var cycle := Cycle(s);
      phase := NextPhase(phase, cycle, dt);
      for side := 0 to 2
        invariant Valid() && body == old(body) && phase == NextPhase(old(phase), cycle, dt)
        invariant side <= 0 ==> feet[0] == old(feet[0])
        invariant side <= 1 ==> feet[1] == old(feet[1])
        invariant side > 0 ==> feet[0] == WalkFoot(w, s, 0, PlaceOf(phase, 0), cycle, old(feet[0]))
        invariant side > 1 ==> feet[1] == WalkFoot(w, s, 1, PlaceOf(phase, 1), cycle, old(feet[1]))
        invariant footfalls == old(footfalls) + One(side > 0 && WalkLands(s, PlaceOf(phase, 0), old(feet[0])))
                                              + One(side > 1 && WalkLands(s, PlaceOf(phase, 1), old(feet[1])))
      {
        WalkOn(s, side, PlaceOf(phase, side), cycle);
      }
    }

    /** One foot's part of a walking frame. */
    method WalkOn(s: Stand, side: nat, p: real, cycle: real)
      requires Valid() && side < 2
      modifies this`footfalls, feet
      ensures feet[side] == WalkFoot(w, s, side, p, cycle, old(feet[side])) && feet[1 - side] == old(feet[1 - side])
      ensures footfalls == old(footfalls) + One(WalkLands(s, p, old(feet[side])))
    {
      hide Swung, Ease;
      var d := Duty(s.speed);
      var f := feet[side];
      if p < d {
        if !f.planted {
          f := f.(at := s.snap(f.to), planted := true);
          footfalls := footfalls + 1;
        }
        f := f.(push := Ease((p / d - (1.0 - PUSH_OFF)) / PUSH_OFF));
      } else {
        if f.planted || f.rate != 0.0 {
          f := Lifted(s, side, f, cycle);
        }
        f := f.(swing := (p - d) / (1.0 - d));
        f := f.(at := Swung(w, f, s.up));
        f := f.(push := 1.0 - Ease(f.swing / TOE_OFF));
      }
      feet[side] := f;
    }

    /** One foot's part of a standing frame. */
    method StandOn(s: Stand, side: nat, dt: real)
      requires Valid() && side < 2
      modifies this`footfalls, feet
      ensures feet[side] == StandFoot(w, s, side, dt, old(feet[side])) && feet[1 - side] == old(feet[1 - side])
      ensures footfalls == old(footfalls) + One(StandLands(s, side, dt, old(feet[side])))
    {
      hide Swung;
      var f := feet[side].(push := 0.0);
      if !f.planted {
        if f.rate == 0.0 {
          f := f.(rate := SETTLE_RATE, from := f.at, to := s.Rest(side), apex := SETTLE_APEX, swing := 0.0);
        }
        f := f.(swing := f.swing + f.rate * dt);
        if f.swing >= 1.0 {
          f := f.(at := s.snap(f.to), planted := true, rate := 0.0);
          footfalls := footfalls + 1;
        } else {
          f := f.(at := Swung(w, f, s.up));
        }
      }
      feet[side] := f;
    }

    method StandStill(s: Stand, dt: real)
      requires Valid()
      modifies this`footfalls, feet
      ensures Valid() && Abstract() == StandStep(w, old(Abstract()), s, dt)
    {
      hide StandFoot, Stepped;
      for side := 0 to 2
        invariant Valid()
        invariant side <= 0 ==> feet[0] == old(feet[0])
        invariant side <= 1 ==> feet[1] == old(feet[1])
        invariant side > 0 ==> feet[0] == StandFoot(w, s, 0, dt, old(feet[0]))
        invariant side > 1 ==> feet[1] == StandFoot(w, s, 1, dt, old(feet[1]))
        invariant footfalls == old(footfalls) + One(side > 0 && StandLands(s, 0, dt, old(feet[0])))
                                              + One(side > 1 && StandLands(s, 1, dt, old(feet[1])))
      {
        StandOn(s, side, dt);
      }
      if feet[0].planted && feet[1].planted {
        var far := Further(w, s, feet[0], feet[1]);
        if OffRest(w, s, far, feet[far]) > SETTLE_OFF {
          feet[far] := Stepped(s, far, feet[far]);
        }
      }
    }
  }

  // ---- Main results: planted feet and footfalls ----

  /** A foot planted before a step of the walk and after it has not moved, on the same body. */
  lemma PlantedStaysPut(w: World, g: State, s: Stand, dt: real)
    requires g.body == Some(s.body)
    ensures var h := Step(w, g, s, dt);
            && (g.left.planted && h.left.planted ==> h.left.at == g.left.at)
            && (g.right.planted && h.right.planted ==> h.right.at == g.right.at)
  {
    hide Swung, Ease, StepLength, Fract;
  }

  /** A foot seen up at one frame and down at the next. */
  function Fell(f: Foot, g: Foot): nat {
    One(!f.planted && g.planted)
  }

  /** At speed, the footfalls counted are the feet seen to come down. */
  lemma WalkingCountsLandings(w: World, g: State, s: Stand, dt: real)
    requires g.body == Some(s.body) && s.speed >= STANDING
    ensures var h := Step(w, g, s, dt);
            h.footfalls == g.footfalls + Fell(g.left, h.left) + Fell(g.right, h.right)
  {
    var cycle := Cycle(s);
    var phase := NextPhase(g.phase, cycle, dt);
    WalkFootDown(w, s, 0, PlaceOf(phase, 0), cycle, g.left);
    WalkFootDown(w, s, 1, PlaceOf(phase, 1), cycle, g.right);
    hide WalkFoot, NextPhase, Cycle, PlaceOf, Duty;
  }

  /** Where a foot down by the end of a standing frame's swings touches the ground. */
  function Touch(s: Stand, side: nat, dt: real, f: Foot): Vec3 {
    if f.planted then f.at else s.snap(Settling(s, side, dt, f).to)
  }

  /** How far that is from its rest. */
  function TouchOff(w: World, s: Stand, side: nat, dt: real, f: Foot): real {
    w.dist(Touch(s, side, dt, f), s.Rest(side))
  }

  /** A standing frame whose swings leave both feet down, the one further from its rest only just put
      down and too far from it: that one steps off again within the frame. */
  predicate StepsStraightOff(w: World, g: State, s: Stand, dt: real) {
    && s.speed < STANDING
    && (g.left.planted || StandLands(s, 0, dt, g.left)) && (g.right.planted || StandLands(s, 1, dt, g.right))
    && var l, r := TouchOff(w, s, 0, dt, g.left), TouchOff(w, s, 1, dt, g.right);
       if l >= r then StandLands(s, 0, dt, g.left) && l > SETTLE_OFF
       else StandLands(s, 1, dt, g.right) && r > SETTLE_OFF
  }

  lemma StandFootTouches(w: World, s: Stand, side: nat, dt: real, f: Foot)
    ensures var g := StandFoot(w, s, side, dt, f);
            && (g.planted <==> f.planted || StandLands(s, side, dt, f))
            && (g.planted ==> g.at == Touch(s, side, dt, f))
  {
    hide Swung;
    assert Settling(s, side, dt, f.(push := 0.0)) == Settling(s, side, dt, f).(push := 0.0);
  }

  /** Standing, one more than the feet seen to come down is counted exactly when one steps straight off. */
  lemma StandingCountsLandings(w: World, g: State, s: Stand, dt: real)
    requires g.body == Some(s.body) && s.speed < STANDING
    ensures var h := Step(w, g, s, dt);
            h.footfalls == g.footfalls + Fell(g.left, h.left) + Fell(g.right, h.right)
              + One(StepsStraightOff(w, g, s, dt))
  {
    StandFootTouches(w, s, 0, dt, g.left);
    StandFootTouches(w, s, 1, dt, g.right);
    hide StandFoot, StandLands, Touch;
  }

  // ---- Footfalls over whole runs ----

  /** A frame: how the suit stands, and how long since the last. */
  datatype Frame = Frame(s: Stand, dt: real)

  /** Frames on one body, so that no step starts the feet over. */
  predicate OnBody(run: seq<Frame>, body: Option<int>) {
    forall i :: 0 <= i < |run| ==> Some(run[i].s.body) == body
  }

  /** The walk after the first `n` frames of a run. */
  function After(w: World, g: State, run: seq<Frame>, n: nat): State
    requires n <= |run|
  {
    if n == 0 then g else Step(w, After(w, g, run, n - 1), run[n - 1].s, run[n - 1].dt)
  }

  /** Times in the first `n` frames that a foot is seen up and then down. */
  function Landings(w: World, g: State, run: seq<Frame>, n: nat): nat
    requires n <= |run|
  {
    if n == 0 then 0
    else
      var before, after := After(w, g, run, n - 1), After(w, g, run, n);
      Landings(w, g, run, n - 1) + Fell(before.left, after.left) + Fell(before.right, after.right)
  }

  predicate StraightOffAt(w: World, g: State, run: seq<Frame>, i: nat)
    requires i < |run|
  {
    StepsStraightOff(w, After(w, g, run, i), run[i].s, run[i].dt)
  }

  /** How many of the first `n` frames have a foot step straight off. */
  function StraightOffs(w: World, g: State, run: seq<Frame>, n: nat): nat
    requires n <= |run|
  {
    if n == 0 then 0 else StraightOffs(w, g, run, n - 1) + One(StraightOffAt(w, g, run, n - 1))
  }

  lemma StepKeepsBody(w: World, g: State, s: Stand, dt: real)
    requires g.body == Some(s.body)
    ensures Step(w, g, s, dt).body == g.body
  {
    hide WalkFoot, StandFoot, Fixed, NextPhase, Cycle, PlaceOf, WalkLands, StandLands;
  }

  /** Over every run on one body the footfalls counted are the landings seen, and one for each foot that
      stepped straight off. */
  lemma {:induction false} FootfallsCounted(w: World, g: State, run: seq<Frame>, n: nat)
    requires n <= |run| && OnBody(run, g.body)
    ensures After(w, g, run, n).body == g.body
    ensures After(w, g, run, n).footfalls == g.footfalls + Landings(w, g, run, n) + StraightOffs(w, g, run, n)
  {
    hide Step, StepsStraightOff, Fell;
    if n > 0 {
      FootfallsCounted(w, g, run, n - 1);
      var p, f := After(w, g, run, n - 1), run[n - 1];
      StepKeepsBody(w, p, f.s, f.dt);
      if f.s.speed < STANDING {
        StandingCountsLandings(w, p, f.s, f.dt);
      } else {
        WalkingCountsLandings(w, p, f.s, f.dt);
        NotStanding(w, p, f.s, f.dt);
      }
    }
  }

  lemma NotStanding(w: World, g: State, s: Stand, dt: real)
    requires s.speed >= STANDING
    ensures !StepsStraightOff(w, g, s, dt)
  {
  }

  lemma {:induction false} SomeStraightOff(w: World, g: State, run: seq<Frame>, n: nat)
    requires n <= |run|
    ensures StraightOffs(w, g, run, n) == 0 <==> forall i :: 0 <= i < n ==> !StraightOffAt(w, g, run, i)
  {
    hide StraightOffAt;
    if n > 0 {
      SomeStraightOff(w, g, run, n - 1);
    }
  }

  /** Main result: footfalls are counted once a landing, over any run on one body, if and only if no frame
      of it has a foot step straight off. */
  lemma OneFootfallALanding(w: World, g: State, run: seq<Frame>, n: nat)
    requires n <= |run| && OnBody(run, g.body)
    ensures After(w, g, run, n).footfalls == g.footfalls + Landings(w, g, run, n)
       <==> forall i :: 0 <= i < n ==> !StraightOffAt(w, g, run, i)
  {
    FootfallsCounted(w, g, run, n);
    SomeStraightOff(w, g, run, n);
  }

  /** Standing on level ground at the origin, the hips 1.4 m either side, facing one way or turned about. */
  function Facing(turned: bool): Stand {
    var l, r := Vec3(-1.4, 0.0, 0.0), Vec3(1.4, 0.0, 0.0);
    Stand(0, if turned then r else l, if turned then l else r, 0.0, ZERO, Vec3(0.0, 1.0, 0.0),
          (p: Vec3) => p.(y := 0.0))
  }

  /** The longest frame the walk is stepped by. */
  const FRAME_MAX: real := 0.1

  /** Turned about for four such frames, then back. */
  function TurnedBack(): seq<Frame> {
    seq(5, i requires 0 <= i < 5 => Frame(Facing(i < 4), FRAME_MAX))
  }

  /** It happens to a suit that turns about and back: its left foot sets off for the other side, comes down there
      as the suit faces its old way, and sets off again, never seen down between. */
  lemma TurnedBackStepsStraightOff(w: World, length: Vec3 -> real, g: State)
    requires IsLength(length) && forall a, b :: w.dist(a, b) == length(a.Sub(b))
    requires g == Reset(g, Facing(false))
    ensures var run := TurnedBack();
            && (forall i :: 0 <= i < 4 ==> !StraightOffAt(w, g, run, i)) && StraightOffAt(w, g, run, 4)
            && Landings(w, g, run, 5) == 0 && After(w, g, run, 5).footfalls == g.footfalls + 1
  {
    hide IsLength, Step, StepsStraightOff, Facing, OneWay, OtherWay;
    HipsApart(w, length);
    var run := TurnedBack();
    forall i | 0 <= i < 4
      ensures !StraightOffAt(w, g, run, i)
    {
      SwingsOver(w, g, i + 1);
    }
    SwingsOver(w, g, 4);
    LandsBack(w, g, After(w, g, run, 4));
  }

  /** How far apart the rests of the two ways lie. */
  ghost predicate OneWay(w: World) {
    var l, r := Facing(false).left, Facing(false).right;
    w.dist(l, r) == w.dist(r, l) == 2.8
  }

  ghost predicate OtherWay(w: World) {
    var l, r := Facing(false).left, Facing(false).right;
    w.dist(l, l) < 1.0 && w.dist(r, r) < 1.0
  }

  /** The left foot has swung for `n` frames toward the other side. */
  predicate SwingingOver(g: State, h: State, n: nat) {
    && h == g.(left := h.left) && !h.left.planted && h.left.to == Facing(false).right
    && h.left.rate == SETTLE_RATE && h.left.swing == n as real * (SETTLE_RATE * FRAME_MAX)
  }

  lemma SetsOff(w: World, g: State)
    requires g == Reset(g, Facing(false)) && OneWay(w)
    ensures SwingingOver(g, Step(w, g, Facing(true), FRAME_MAX), 0)
    ensures !StepsStraightOff(w, g, Facing(true), FRAME_MAX)
  {
  }

  lemma SwingsOn(w: World, g: State, h: State, n: nat)
    requires g == Reset(g, Facing(false)) && SwingingOver(g, h, n) && n < 3
    ensures SwingingOver(g, Step(w, h, Facing(true), FRAME_MAX), n + 1)
    ensures !StepsStraightOff(w, h, Facing(true), FRAME_MAX)
  {
    hide Swung;
    var step := SETTLE_RATE * FRAME_MAX;
    assert step == 2.0 / 7.0;
    assert (n + 1) as real * step == n as real * step + step;
  }

  lemma {:induction false} SwingsOver(w: World, g: State, k: nat)
    requires g == Reset(g, Facing(false)) && OneWay(w) && 1 <= k <= 4
    ensures SwingingOver(g, After(w, g, TurnedBack(), k), k - 1)
    ensures Landings(w, g, TurnedBack(), k) == 0 && !StraightOffAt(w, g, TurnedBack(), k - 1)
  {
    hide Step, StepsStraightOff, Facing, OneWay;
    var run := TurnedBack();
    assert run[k - 1] == Frame(Facing(true), FRAME_MAX);
    if k == 1 {
      assert After(w, g, run, 0) == g;
      SetsOff(w, g);
    } else {
      SwingsOver(w, g, k - 1);
      SwingsOn(w, g, After(w, g, run, k - 1), k - 2);
    }
  }

  lemma LandsBack(w: World, g: State, b: State)
    requires g == Reset(g, Facing(false)) && SwingingOver(g, b, 3) && OneWay(w) && OtherWay(w)
    ensures StepsStraightOff(w, b, Facing(false), FRAME_MAX)
    ensures var c := Step(w, b, Facing(false), FRAME_MAX);
            !c.left.planted && b.right.planted && c.footfalls == g.footfalls + 1
  {
    hide Swung;
    assert SETTLE_RATE * FRAME_MAX == 2.0 / 7.0;
    assert StandLands(Facing(false), 0, FRAME_MAX, b.left);
  }

  lemma HipsApart(w: World, length: Vec3 -> real)
    requires IsLength(length) && forall a, b :: w.dist(a, b) == length(a.Sub(b))
    ensures OneWay(w) && OtherWay(w)
  {
    hide IsLength;
    var l, r := Facing(false).left, Facing(false).right;
    LengthOf(length, l.Sub(r));
    LengthOf(length, r.Sub(l));
    LengthOf(length, ZERO);
    assert l.Sub(r) == Vec3(-2.8, 0.0, 0.0) && r.Sub(l) == Vec3(2.8, 0.0, 0.0) && l.Sub(l) == r.Sub(r) == ZERO;
    AcrossIs(length(l.Sub(r)));
    AcrossIs(length(r.Sub(l)));
    StillIs(length(ZERO));
    assert w.dist(l, l) == length(l.Sub(l)) && w.dist(r, r) == length(r.Sub(r));
  }

  lemma LengthOf(length: Vec3 -> real, v: Vec3)
    requires IsLength(length)
    ensures length(v) >= 0.0 && length(v) * length(v) == v.Dot(v)
  {
  }

  lemma StillIs(x: real)
    requires x >= 0.0 && x * x == 0.0
    ensures x < 1.0
  {
    assert x >= 1.0 ==> x * x >= x;
  }

  lemma AcrossIs(x: real)
    requires x >= 0.0 && x * x == 7.84
    ensures x == 2.8
  {
    assert x < 2.8 ==> x * x <= 2.8 * x;
    assert x > 2.8 ==> x * x >= 2.8 * x;
  }

  /** After a step at a walk at least one foot is down; after one at a run, at most one is. */
  lemma FeetDownBySpeed(w: World, g: State, s: Stand, dt: real)
    requires g.body == Some(s.body) && s.speed >= STANDING
    ensures var h := Step(w, g, s, dt);
            && (s.speed < RUN_FROM ==> h.left.planted || h.right.planted)
            && (s.speed >= RUN_FROM ==> !(h.left.planted && h.right.planted))
  {
    var cycle := Cycle(s);
    var phase := NextPhase(g.phase, cycle, dt);
    PlacesOpposed(phase);
    WalkFootDown(w, s, 0, PlaceOf(phase, 0), cycle, g.left);
    WalkFootDown(w, s, 1, PlaceOf(phase, 1), cycle, g.right);
    hide WalkFoot, NextPhase, Cycle, PlaceOf;
  }

  lemma WalkFootDown(w: World, s: Stand, side: nat, p: real, cycle: real, f: Foot)
    ensures WalkFoot(w, s, side, p, cycle, f).planted <==> p < Duty(s.speed)
  {
    hide Swung, Ease;
  }

  /** The feet are half a cycle apart. */
  lemma PlacesOpposed(phase: real)
    requires 0.0 <= phase < 1.0
    ensures PlaceOf(phase, 0) == phase
    ensures PlaceOf(phase, 1) == if phase < 0.5 then phase + 0.5 else phase - 0.5
  {
    assert phase.Floor == 0;
    var u := phase + 0.5;
    assert u.Floor == if phase < 0.5 then 0 else 1;
  }

  // ---- How the cycle goes on ----

  /** How much of a cycle, two steps, is walked in a frame: a step is two and a half metres and 35 cm for each metre a
      second, up to 8.8 m. */
  function Walked(f: Frame): real
    requires f.s.speed >= STANDING
  {
    var step := if 2.5 + 0.35 * f.s.speed > 8.8 then 8.8 else 2.5 + 0.35 * f.s.speed;
    f.s.speed / (2.0 * step) * f.dt
  }

  predicate Walking(run: seq<Frame>, body: Option<int>) {
    OnBody(run, body) && forall i :: 0 <= i < |run| ==> run[i].s.speed >= 0.4
  }

  /** Cycles walked over the first `n` frames. */
  function AllWalked(run: seq<Frame>, n: nat): real
    requires n <= |run| && forall i :: 0 <= i < |run| ==> run[i].s.speed >= STANDING
  {
    if n == 0 then 0.0 else AllWalked(run, n - 1) + Walked(run[n - 1])
  }

  /** Two numbers that differ by a whole one. */
  predicate Apart(x: real, y: real, whole: int) {
    x == y + whole as real
  }

  lemma FractIs(x: real, y: real, whole: int)
    requires 0.0 <= y < 1.0 && Apart(x, y, whole)
    ensures Fract(x) == y
  {
    assert x.Floor == whole;
  }

  lemma WalkStepPhase(w: World, g: State, s: Stand, dt: real)
    requires g.body == Some(s.body) && s.speed >= STANDING
    ensures Step(w, g, s, dt).phase == Fract(g.phase + Walked(Frame(s, dt)))
    ensures 0.0 <= Step(w, g, s, dt).phase < 1.0
  {
    assert Cycle(s) * dt == Walked(Frame(s, dt)) by {
      assert StepLength(s.speed) == if 2.5 + 0.35 * s.speed > 8.8 then 8.8 else 2.5 + 0.35 * s.speed;
    }
    hide WalkFoot, PlaceOf, WalkLands, Fract, Cycle;
  }

  /** Main result: walking on one body, however the speed changes and however time is cut into frames, the phase
      moves on by the cycles walked, up to whole ones. */
  lemma {:induction false} PhaseGoesOn(w: World, g: State, run: seq<Frame>, n: nat) returns (whole: int)
    requires n <= |run| && Walking(run, g.body) && 0.0 <= g.phase < 1.0
    ensures 0.0 <= After(w, g, run, n).phase < 1.0 && After(w, g, run, n).body == g.body
    ensures Apart(g.phase + AllWalked(run, n), After(w, g, run, n).phase, whole)
  {
    hide Step, Walked;
    whole := 0;
    if n > 0 {
      whole := PhaseGoesOn(w, g, run, n - 1);
      var p, f := After(w, g, run, n - 1), run[n - 1];
      WalkStepPhase(w, p, f.s, f.dt);
      StepKeepsBody(w, p, f.s, f.dt);
      whole := whole + (p.phase + Walked(f)).Floor;
    }
  }

  /** So two frames at one speed are one frame of their length. */
  lemma WalkAnyFrameRate(w: World, g: State, s: Stand, t: real, u: real)
    requires g.body == Some(s.body) && s.speed >= STANDING
    ensures Step(w, Step(w, g, s, t), s, u).phase == Step(w, g, s, t + u).phase
  {
    hide Step, Fract;
    var a, b, c := Walked(Frame(s, t)), Walked(Frame(s, u)), Walked(Frame(s, t + u));
    assert a + b == c;
    StepKeepsBody(w, g, s, t);
    WalkStepPhase(w, g, s, t);
    WalkStepPhase(w, Step(w, g, s, t), s, u);
    WalkStepPhase(w, g, s, t + u);
    FractOfSum(g.phase + a, b);
    assert g.phase + a + b == g.phase + c;
  }

  lemma FractOfSum(x: real, y: real)
    ensures Fract(Fract(x) + y) == Fract(x + y)
  {
    FractIs(Fract(x) + y, Fract(x + y), (x + y).Floor - x.Floor);
  }

  function FootOf(g: State, side: nat): Foot {
    if side == 0 then g.left else g.right
  }

  /** A foot is down where its place in the cycle asks it to be. */
  predicate InStep(g: State, side: nat, d: real) {
    FootOf(g, side).planted <==> PlaceOf(g.phase, side) < d
  }

  /** Times in the first `n` frames that a foot seen down is next seen up. */
  function Lifts(w: World, g: State, run: seq<Frame>, side: nat, n: nat): nat
    requires n <= |run|
  {
    if n == 0 then 0
    else Lifts(w, g, run, side, n - 1)
         + Fell(FootOf(After(w, g, run, n), side), FootOf(After(w, g, run, n - 1), side))
  }

  function Lands(w: World, g: State, run: seq<Frame>, side: nat, n: nat): nat
    requires n <= |run|
  {
    if n == 0 then 0
    else Lands(w, g, run, side, n - 1)
         + Fell(FootOf(After(w, g, run, n - 1), side), FootOf(After(w, g, run, n), side))
  }

  /** Frames at one speed, each shorter than a foot's stance and than its swing. */
  predicate Even(run: seq<Frame>, speed: real) {
    forall i :: 0 <= i < |run| ==>
      run[i].s.speed == speed >= STANDING && 0.0 <= Walked(run[i]) <= Duty(speed)
      && Walked(run[i]) <= 1.0 - Duty(speed)
  }

  lemma DutyBounds(speed: real)
    ensures Duty(speed) == if speed >= 12.0 then 0.38 else 0.62
  {
  }

  /** After every walking frame each foot is in step. */
  lemma WalkStepInStep(w: World, g: State, s: Stand, dt: real, side: nat)
    requires g.body == Some(s.body) && s.speed >= STANDING && side < 2
    ensures InStep(Step(w, g, s, dt), side, Duty(s.speed))
  {
    var cycle := Cycle(s);
    var phase := NextPhase(g.phase, cycle, dt);
    WalkFootDown(w, s, 0, PlaceOf(phase, 0), cycle, g.left);
    WalkFootDown(w, s, 1, PlaceOf(phase, 1), cycle, g.right);
    hide WalkFoot, NextPhase, Cycle, PlaceOf, Duty;
  }

  /** A foot's place is how far it had got and what has been walked, up to whole cycles. */
  lemma PlaceGoesOn(w: World, g: State, run: seq<Frame>, side: nat, n: nat)
    requires n <= |run| && Walking(run, g.body) && 0.0 <= g.phase < 1.0
    ensures PlaceOf(After(w, g, run, n).phase, side) == Fract(PlaceOf(g.phase, side) + AllWalked(run, n))
  {
    hide After, AllWalked, Fract;
    var whole := PhaseGoesOn(w, g, run, n);
    var p, half, c := After(w, g, run, n).phase, 0.5 * side as real, AllWalked(run, n);
    FractOfSum(g.phase + half, c);
    SameFract(g.phase + half + c, p + half, whole);
  }

  lemma SameFract(x: real, y: real, whole: int)
    requires Apart(x, y, whole)
    ensures Fract(x) == Fract(y)
  {
    FractIs(x, Fract(y), whole + y.Floor);
  }

  /** How often a foot that began at place `p` has lifted and landed by the time it has come to `u`, at most a
      cycle on. */
  predicate SoFar(p: real, u: real, d: real, lifts: nat, lands: nat) {
    lands == One(u >= 1.0) && lifts == One(u >= if p < d then d else 1.0 + d)
  }

  lemma SoFarGoesOn(p: real, u: real, on: real, d: real, lifts: nat, lands: nat)
    requires 0.0 < d < 1.0 && 0.0 <= p < 1.0 && p <= u && u + on <= p + 1.0 && 0.0 <= on <= d && on <= 1.0 - d
    requires SoFar(p, u, d, lifts, lands)
    ensures var was, now := Fract(u) < d, Fract(u + on) < d;
            SoFar(p, u + on, d, lifts + One(was && !now), lands + One(!was && now))
  {
    FractIs(u, if u < 1.0 then u else u - 1.0, if u < 1.0 then 0 else 1);
    FractIs(u + on, if u + on < 1.0 then u + on else u + on - 1.0, if u + on < 1.0 then 0 else 1);
  }

  lemma {:induction false} CycleSoFar(w: World, g: State, run: seq<Frame>, speed: real, side: nat, n: nat)
    requires n <= |run| && Walking(run, g.body) && Even(run, speed) && 0.0 <= g.phase < 1.0 && side < 2
    requires InStep(g, side, Duty(speed)) && AllWalked(run, n) <= 1.0
    ensures 0.0 <= AllWalked(run, n) && InStep(After(w, g, run, n), side, Duty(speed))
    ensures var p := PlaceOf(g.phase, side);
            SoFar(p, p + AllWalked(run, n), Duty(speed), Lifts(w, g, run, side, n), Lands(w, g, run, side, n))
  {
    hide Step, Walked, Duty, PlaceOf, Fract, SoFar, FootOf;
    DutyBounds(speed);
    var p := PlaceOf(g.phase, side);
    PlaceInCycle(g.phase, side);
    if n == 0 {
      SoFarAtFirst(p, Duty(speed));
    } else {
      var k := n - 1;
      assert AllWalked(run, n) == AllWalked(run, k) + Walked(run[k]);
      CycleSoFar(w, g, run, speed, side, k);
      var whole := PhaseGoesOn(w, g, run, k);
      WalkStepInStep(w, After(w, g, run, k), run[k].s, run[k].dt, side);
      PlaceGoesOn(w, g, run, side, k);
      PlaceGoesOn(w, g, run, side, n);
      SoFarGoesOn(p, p + AllWalked(run, k), Walked(run[k]), Duty(speed),
                  Lifts(w, g, run, side, k), Lands(w, g, run, side, k));
      assert p + AllWalked(run, k) + Walked(run[k]) == p + AllWalked(run, n);
    }
  }

  lemma PlaceInCycle(phase: real, side: nat)
    ensures 0.0 <= PlaceOf(phase, side) < 1.0
  {
  }

  lemma SoFarAtFirst(p: real, d: real)
    requires 0.0 <= p < 1.0 && d > 0.0
    ensures SoFar(p, p + 0.0, d, 0, 0)
  {
  }

  /** Main result: over frames at one speed that together walk one cycle, none longer than the shorter of a foot's
      stance and swing, each foot lifts once and lands once. */
  lemma EachFootOnceACycle(w: World, g: State, run: seq<Frame>, speed: real, side: nat, n: nat)
    requires n <= |run| && Walking(run, g.body) && Even(run, speed) && 0.0 <= g.phase < 1.0 && side < 2
    requires InStep(g, side, Duty(speed)) && AllWalked(run, n) == 1.0
    ensures Lifts(w, g, run, side, n) == 1 && Lands(w, g, run, side, n) == 1
  {
    hide AllWalked, Lifts, Lands, Walking, Even;
    CycleSoFar(w, g, run, speed, side, n);
  }

  /** How long a foot lifting off has until the middle of its next stance. */
  function MidStanceIn(s: Stand, cycle: real): real
    requires cycle > 0.0
  {
    var d := Duty(s.speed);
    (1.0 - d) / cycle + d / cycle * 0.5
  }

  /** A foot lifts off at place `d` of its cycle for where its hip will be, at this pace, when its cycle
      has come round to the middle of its next stance. */
  lemma HeadsForMidStance(s: Stand, side: nat, f: Foot, cycle: real)
    requires cycle > 0.0
    ensures var t := MidStanceIn(s, cycle);
            && Lifted(s, side, f, cycle).to == s.snap(s.Rest(side).Add(s.ahead.Mul(t)))
            && Duty(s.speed) + cycle * t == 1.0 + Duty(s.speed) * 0.5
  {
    var d := Duty(s.speed);
    Over(1.0 - d, cycle);
    Over(d, cycle);
    var a, b := (1.0 - d) / cycle, d / cycle;
    assert cycle * (a + b * 0.5) == cycle * a + cycle * b * 0.5;
  }

  /** So in a walking step each foot lifted heads for its own hip, and each foot up is as far through its swing as its
      own place in the cycle says. */
  lemma EachForItsOwnHip(w: World, g: State, s: Stand, dt: real)
    requires g.body == Some(s.body) && s.speed >= 0.4
    ensures var h, t := Step(w, g, s, dt), MidStanceIn(s, Cycle(s));
            && (g.left.planted && !h.left.planted ==> h.left.to == s.snap(s.left.Add(s.ahead.Mul(t))))
            && (g.right.planted && !h.right.planted ==> h.right.to == s.snap(s.right.Add(s.ahead.Mul(t))))
            && (!h.left.planted ==> h.left.swing == Share(PlaceOf(h.phase, 0), Duty(s.speed)))
            && (!h.right.planted ==> h.right.swing == Share(PlaceOf(h.phase, 1), Duty(s.speed)))
  {
    var cycle := Cycle(s);
    var phase := NextPhase(g.phase, cycle, dt);
    PlaceInCycle(phase, 0);
    PlaceInCycle(phase, 1);
    WalkFootHeads(w, s, 0, PlaceOf(phase, 0), cycle, g.left);
    WalkFootHeads(w, s, 1, PlaceOf(phase, 1), cycle, g.right);
    hide WalkFoot, NextPhase, Cycle, PlaceOf, Share, MidStanceIn, Duty;
  }

  lemma WalkFootHeads(w: World, s: Stand, side: nat, p: real, cycle: real, f: Foot)
    requires cycle > 0.0
    ensures var g := WalkFoot(w, s, side, p, cycle, f);
            && (f.planted && !g.planted ==> g.to == s.snap(s.Rest(side).Add(s.ahead.Mul(MidStanceIn(s, cycle)))))
            && (!g.planted ==> g.swing == Share(p, Duty(s.speed)))
  {
    HeadsForMidStance(s, side, f, cycle);
    hide Swung, Ease;
  }

  lemma Over(x: real, c: real)
    requires c > 0.0
    ensures c * (x / c) == x
  {
  }

  // ---- How a foot swings and rolls ----

  /** The easing starts and ends at rest, is the same seen from either end, and is halfway at half time. */
  lemma EaseLaw(u: real)
    ensures u <= 0.0 ==> Ease(u) == 0.0
    ensures u >= 1.0 ==> Ease(u) == 1.0
    ensures 0.0 <= u <= 1.0 ==> 0.0 <= Ease(u) <= 1.0 && Ease(u) + Ease(1.0 - u) == 1.0
    ensures 0.0 <= u <= 1.0 ==> 1.0 - Ease(u) == (1.0 - u) * (1.0 - u) * (1.0 + 2.0 * u)
    ensures Ease(0.5) == 0.5
  {
    if 0.0 <= u <= 1.0 {
      var v := 1.0 - u;
      SmoothStep(u);
      assert 0.0 <= v <= 1.0;
      EaseBetween(u, Ease(u), v);
    }
  }

  lemma SmoothStep(u: real)
    ensures 1.0 - u * u * (3.0 - 2.0 * u) == (1.0 - u) * (1.0 - u) * (1.0 + 2.0 * u)
    ensures (1.0 - u) * (1.0 - u) * (3.0 - 2.0 * (1.0 - u)) == (1.0 - u) * (1.0 - u) * (1.0 + 2.0 * u)
  {
    assert (1.0 - u) * (1.0 - u) == 1.0 - 2.0 * u + u * u;
    assert (1.0 - 2.0 * u + u * u) * (1.0 + 2.0 * u)
        == 1.0 + 2.0 * u - 2.0 * u - 4.0 * (u * u) + u * u + 2.0 * (u * u * u);
    assert 3.0 - 2.0 * (1.0 - u) == 1.0 + 2.0 * u;
  }

  lemma EaseBetween(u: real, e: real, v: real)
    requires 0.0 <= u <= 1.0 && v == 1.0 - u && e == u * u * (3.0 - 2.0 * u) && 1.0 - e == v * v * (1.0 + 2.0 * u)
    ensures 0.0 <= e <= 1.0
  {
    NotNegative(u * u, 3.0 - 2.0 * u);
    NotNegative(v * v, 1.0 + 2.0 * u);
  }

  lemma NotNegative(a: real, b: real)
    requires a >= 0.0 && b >= 0.0
    ensures a * b >= 0.0
  {
  }

  /** The arc rises from the ground and comes back to it. */
  predicate Arched(w: World) {
    w.lift(0.0) == 0.0 && w.lift(1.0) == 0.0 && w.lift(0.5) == 1.0
  }

  /** A swing leaves from where it set off, is over the middle of its way at half time, as high as its apex, and ends
      where it heads. */
  lemma SwingArc(w: World, f: Foot, up: Vec3)
    requires Arched(w)
    ensures f.swing <= 0.0 ==> Swung(w, f, up) == f.from
    ensures f.swing == 0.5 ==>
              Swung(w, f, up) == f.from.Add(f.to.Sub(f.from).Mul(0.5)).Add(up.Mul(f.apex))
    ensures f.swing >= 1.0 ==> Swung(w, f, up) == f.to
  {
    EaseLaw(f.swing);
    EaseLaw(0.0);
    EaseLaw(1.0);
    hide Ease;
    assert up.Mul(f.apex * 0.0) == ZERO;
    assert f.from.Add(f.to.Sub(f.from).Mul(0.0)).Add(ZERO) == f.from;
    assert f.from.Add(f.to.Sub(f.from).Mul(1.0)).Add(ZERO) == f.to;
    assert f.apex * 1.0 == f.apex;
  }

  /** How far through its stance, or its swing, a foot at place `p` of its cycle is. */
  function Share(p: real, d: real): real
    requires 0.0 < d < 1.0
  {
    if p < d then p / d else (p - d) / (1.0 - d)
  }

  /** A foot rolls onto its toes and back by how near it is to leaving the ground: flat until a third of its stance is
      left (0.34 of it), on its toes as it leaves, flat again a third of its swing on. */
  lemma PushLaw(w: World, s: Stand, side: nat, p: real, cycle: real, f: Foot)
    requires 0.0 <= p < 1.0
    ensures var d := Duty(s.speed);
            var from_ := if p < d then 1.0 - Share(p, d) else Share(p, d);
            WalkFoot(w, s, side, p, cycle, f).push == 1.0 - Ease(from_ / 0.34)
  {
    var d := Duty(s.speed);
    if p < d {
      var share := Share(p, d);
      var x := (share - (1.0 - PUSH_OFF)) / PUSH_OFF;
      assert 1.0 - x == (1.0 - share) / 0.34;
      EaseLaw(x);
      EaseLaw(1.0 - x);
    }
    hide Ease, Swung;
  }

  /** A foot that lifts sets off from where it stood, and is lifted 0.9 m walking and 2.2 m from 12 m/s on. */
  lemma LiftLaw(w: World, s: Stand, side: nat, p: real, cycle: real, f: Foot)
    requires p >= Duty(s.speed) && (f.planted || f.rate != 0.0)
    ensures var g := WalkFoot(w, s, side, p, cycle, f);
            && !g.planted && g.rate == 0.0 && g.from == f.at && g.apex == (if s.speed >= 12.0 then 2.2 else 0.9)
            && g.swing == Share(p, Duty(s.speed)) && g.at == Swung(w, g, s.up)
  {
    hide Ease;
  }

  /** A foot put down walking is put on the ground where it was heading. */
  lemma LandsWhereHeading(w: World, s: Stand, side: nat, p: real, cycle: real, f: Foot)
    requires p < Duty(s.speed) && !f.planted
    ensures var g := WalkFoot(w, s, side, p, cycle, f); g.planted && g.at == s.snap(f.to)
  {
    hide Ease;
  }

  /** Standing, a foot after each of some frames. */
  function StoodFor(w: World, s: Stand, side: nat, dts: seq<real>, f: Foot): Foot {
    if dts == [] then f else StandFoot(w, s, side, dts[|dts| - 1], StoodFor(w, s, side, dts[..|dts| - 1], f))
  }

  function Sum(dts: seq<real>): real {
    if dts == [] then 0.0 else Sum(dts[..|dts| - 1]) + dts[|dts| - 1]
  }

  /** A swing cut short sets off anew for the foot's rest from where it is, lifted 0.4 m, and comes down there after
      0.35 s, on the frame that completes them and not before. */
  lemma {:induction false} SettleLaw(w: World, s: Stand, side: nat, dts: seq<real>, f: Foot)
    requires !f.planted && f.rate == 0.0 && dts != [] && Forward(dts, 0.0) && Sum(dts[..|dts| - 1]) < 0.35
    ensures var g := StoodFor(w, s, side, dts, f);
            if Sum(dts) < 0.35
            then !g.planted && g.from == f.at && g.to == s.Rest(side) && g.apex == 0.4 && g.rate == SETTLE_RATE
                 && g.swing * 0.35 == Sum(dts) && g.at == Swung(w, g, s.up)
            else g.planted && g.at == s.snap(s.Rest(side)) && g.push == 0.0
  {
    hide Ease, Clamp01;
    var front, dt := dts[..|dts| - 1], dts[|dts| - 1];
    assert Forward(front, 0.0);
    assert (SETTLE_RATE * dt) * 0.35 == dt;
    if front == [] {
      assert StoodFor(w, s, side, front, f) == f && Sum(front) == 0.0;
    } else {
      SumRises(front);
      SettleLaw(w, s, side, front, f);
    }
  }

  lemma SumRises(dts: seq<real>)
    requires dts != [] && Forward(dts, 0.0)
    ensures Sum(dts[..|dts| - 1]) <= Sum(dts)
  {
  }

  /** On a new body the walk starts over: at the beginning of its cycle, both feet down flat where they rest. */
  lemma NewBodyStartsOver(w: World, g: State, s: Stand, dt: real)
    requires g.body != Some(s.body)
    ensures var h := Step(w, g, s, dt);
            && h.body == Some(s.body) && h.phase == 0.0 && h.footfalls == g.footfalls
            && h.left.planted && h.left.at == s.left && h.left.push == 0.0 && h.left.swing == h.left.rate == 0.0
            && h.right.planted && h.right.at == s.right && h.right.push == 0.0 && h.right.swing == h.right.rate == 0.0
  {
  }

  // ---- Main results: coming to rest ----

  /** What every run keeps of a foot. */
  predicate Sound(f: Foot) {
    f.swing >= 0.0 && (f.rate == 0.0 || f.rate == SETTLE_RATE)
  }

  lemma StepKeepsSound(w: World, g: State, s: Stand, dt: real)
    requires dt >= 0.0 && (g.body == Some(s.body) ==> Sound(g.left) && Sound(g.right))
    ensures var h := Step(w, g, s, dt); Sound(h.left) && Sound(h.right)
  {
    if g.body == Some(s.body) {
      var cycle := Cycle(s);
      var phase := NextPhase(g.phase, cycle, dt);
      WalkFootSound(w, s, 0, PlaceOf(phase, 0), cycle, g.left);
      WalkFootSound(w, s, 1, PlaceOf(phase, 1), cycle, g.right);
      StandFootSound(w, s, 0, dt, g.left);
      StandFootSound(w, s, 1, dt, g.right);
    }
    hide WalkFoot, StandFoot, NextPhase, Cycle, PlaceOf;
  }

  lemma WalkFootSound(w: World, s: Stand, side: nat, p: real, cycle: real, f: Foot)
    requires Sound(f)
    ensures Sound(WalkFoot(w, s, side, p, cycle, f))
  {
    hide Swung, Ease;
    var d := Duty(s.speed);
    if p >= d {
      assert (p - d) / (1.0 - d) >= 0.0;
    }
  }

  lemma StandFootSound(w: World, s: Stand, side: nat, dt: real, f: Foot)
    requires Sound(f) && dt >= 0.0
    ensures Sound(StandFoot(w, s, side, dt, f))
  {
    hide Swung;
    assert SETTLE_RATE * dt >= 0.0;
  }

  /** A stand the suit keeps still in: slow, its rests on the ground, and a point no way from itself. */
  ghost predicate Still(w: World, s: Stand) {
    && s.speed < 0.4 && s.snap(s.left) == s.left && s.snap(s.right) == s.right
    && w.dist(s.left, s.left) == 0.0 && w.dist(s.right, s.right) == 0.0
  }

  /** Footfalls a foot may still make, standing so. */
  function FallsLeft(w: World, s: Stand, side: nat, f: Foot): nat {
    if f.planted then (if OffRest(w, s, side, f) > SETTLE_OFF then 1 else 0)
    else if f.rate == 0.0 || f.to == s.Rest(side) then 1
    else 2
  }

  lemma StandFootSpends(w: World, s: Stand, side: nat, dt: real, f: Foot)
    requires Still(w, s) && side < 2 && Sound(f)
    ensures var g := StandFoot(w, s, side, dt, f);
            Fell(f, g) + FallsLeft(w, s, side, g) <= FallsLeft(w, s, side, f)
  {
    hide Swung;
  }

  lemma FixedSpendsNothing(w: World, s: Stand, l: Foot, r: Foot)
    ensures var (l', r') := Fixed(w, s, l, r);
            FallsLeft(w, s, 0, l') + FallsLeft(w, s, 1, r') == FallsLeft(w, s, 0, l) + FallsLeft(w, s, 1, r)
  {
  }

  function AllFallsLeft(w: World, s: Stand, g: State): nat {
    FallsLeft(w, s, 0, g.left) + FallsLeft(w, s, 1, g.right)
  }

  lemma StandStepSpends(w: World, g: State, s: Stand, dt: real)
    requires Still(w, s) && g.body == Some(s.body) && Sound(g.left) && Sound(g.right)
    ensures var h := Step(w, g, s, dt);
            h.footfalls + AllFallsLeft(w, s, h) <= g.footfalls + AllFallsLeft(w, s, g)
  {
    StandFootSpends(w, s, 0, dt, g.left);
    StandFootSpends(w, s, 1, dt, g.right);
    StandFootTouches(w, s, 0, dt, g.left);
    StandFootTouches(w, s, 1, dt, g.right);
    FixedSpendsNothing(w, s, StandFoot(w, s, 0, dt, g.left), StandFoot(w, s, 1, dt, g.right));
    hide StandFoot, Fixed, FallsLeft, StandLands, Touch;
  }

  /** The walk after the first `n` of a run of frames, all standing as `s`. */
  function StandFor(w: World, g: State, s: Stand, dts: seq<real>, n: nat): State
    requires n <= |dts|
  {
    if n == 0 then g else Step(w, StandFor(w, g, s, dts, n - 1), s, dts[n - 1])
  }

  predicate Forward(dts: seq<real>, least: real) {
    forall i :: 0 <= i < |dts| ==> dts[i] >= least
  }

  lemma {:induction false} StandForSound(w: World, g: State, s: Stand, dts: seq<real>, n: nat)
    requires n <= |dts| && Forward(dts, 0.0) && Still(w, s) && g.body == Some(s.body) && Sound(g.left) && Sound(g.right)
    ensures var h := StandFor(w, g, s, dts, n); h.body == Some(s.body) && Sound(h.left) && Sound(h.right)
  {
    hide Sound, StandStep;
    if n > 0 {
      StandForSound(w, g, s, dts, n - 1);
      StepKeepsSound(w, StandFor(w, g, s, dts, n - 1), s, dts[n - 1]);
      StandStepKeepsBody(w, StandFor(w, g, s, dts, n - 1), s, dts[n - 1]);
    }
  }

  lemma StandStepKeepsBody(w: World, g: State, s: Stand, dt: real)
    ensures StandStep(w, g, s, dt).body == g.body
  {
    hide StandFoot, Fixed;
  }

  /** Main result: however long a suit stands so, at most four more footfalls come. */
  lemma {:induction false} FewMoreFootfalls(w: World, g: State, s: Stand, dts: seq<real>, n: nat)
    requires n <= |dts| && Forward(dts, 0.0) && Still(w, s) && g.body == Some(s.body) && Sound(g.left) && Sound(g.right)
    ensures var h := StandFor(w, g, s, dts, n);
            h.footfalls + AllFallsLeft(w, s, h) <= g.footfalls + AllFallsLeft(w, s, g) <= g.footfalls + 4
  {
    hide Step, Sound;
    if n > 0 {
      FewMoreFootfalls(w, g, s, dts, n - 1);
      StandForSound(w, g, s, dts, n - 1);
      StandStepSpends(w, StandFor(w, g, s, dts, n - 1), s, dts[n - 1]);
    }
  }

  /** Both feet down, neither far from its rest. */
  predicate AtRest(w: World, s: Stand, g: State) {
    && g.left.planted && g.right.planted
    && OffRest(w, s, 0, g.left) <= 1.2 && OffRest(w, s, 1, g.right) <= 1.2
  }

  /** How far a foot is from rest: it falls as a swing goes on and at each landing or stepping off. */
  function Unrest(w: World, s: Stand, side: nat, f: Foot): real {
    if f.planted then (if OffRest(w, s, side, f) > SETTLE_OFF then 3.0 else 0.0)
    else if f.rate == 0.0 then 3.0
    else (if f.to == s.Rest(side) then 1.0 else 4.0) + 1.0 - Clamp01(f.swing)
  }

  /** The least a frame of `dt` brings a swinging foot on. */
  function Progress(dt: real): real {
    if SETTLE_RATE * dt < 1.0 then SETTLE_RATE * dt else 1.0
  }

  lemma StandFootCalms(w: World, s: Stand, side: nat, dt: real, f: Foot)
    requires Still(w, s) && side < 2 && Sound(f) && dt >= 0.0
    ensures var g := StandFoot(w, s, side, dt, f);
            Unrest(w, s, side, g) <= Unrest(w, s, side, f) - (if f.planted then 0.0 else Progress(dt))
  {
    hide Swung;
    assert SETTLE_RATE * dt >= 0.0;
  }

  lemma FixedCalms(w: World, s: Stand, l: Foot, r: Foot)
    requires Sound(l) && Sound(r)
    ensures var (l', r') := Fixed(w, s, l, r);
            var before, after := Unrest(w, s, 0, l) + Unrest(w, s, 1, r), Unrest(w, s, 0, l') + Unrest(w, s, 1, r');
            after <= before - (if l.planted && r.planted && before > 0.0 then 1.0 else 0.0)
  {
  }

  function AllUnrest(w: World, s: Stand, g: State): real {
    Unrest(w, s, 0, g.left) + Unrest(w, s, 1, g.right)
  }

  lemma UnrestBounds(w: World, s: Stand, side: nat, f: Foot)
    ensures 0.0 <= Unrest(w, s, side, f) <= 5.0
    ensures Unrest(w, s, side, f) == 0.0 <==> f.planted && OffRest(w, s, side, f) <= SETTLE_OFF
  {
  }

  lemma StandStepCalms(w: World, g: State, s: Stand, dt: real)
    requires Still(w, s) && g.body == Some(s.body) && Sound(g.left) && Sound(g.right) && dt >= 0.0
    ensures var h := Step(w, g, s, dt);
            AllUnrest(w, s, h) <= AllUnrest(w, s, g) - (if AtRest(w, s, g) then 0.0 else Progress(dt))
    ensures AtRest(w, s, g) ==> AtRest(w, s, Step(w, g, s, dt))
  {
    var l, r := StandFoot(w, s, 0, dt, g.left), StandFoot(w, s, 1, dt, g.right);
    StandFootCalms(w, s, 0, dt, g.left);
    StandFootCalms(w, s, 1, dt, g.right);
    StandFootSound(w, s, 0, dt, g.left);
    StandFootSound(w, s, 1, dt, g.right);
    FixedCalms(w, s, l, r);
    UnrestBounds(w, s, 0, g.left);
    UnrestBounds(w, s, 1, g.right);
    UnrestBounds(w, s, 0, l);
    UnrestBounds(w, s, 1, r);
    PlantedFootStays(w, s, 0, dt, g.left);
    PlantedFootStays(w, s, 1, dt, g.right);
    ProgressSmall(dt);
    var h := Step(w, g, s, dt);
    UnrestBounds(w, s, 0, h.left);
    UnrestBounds(w, s, 1, h.right);
    hide StandFoot, Unrest, Fixed, Progress, Sound;
  }

  lemma ProgressSmall(dt: real)
    requires dt >= 0.0
    ensures 0.0 <= Progress(dt) <= 1.0
  {
    assert SETTLE_RATE * dt >= 0.0;
  }

  lemma PlantedFootStays(w: World, s: Stand, side: nat, dt: real, f: Foot)
    ensures f.planted ==> var g := StandFoot(w, s, side, dt, f);
                          g.planted && Unrest(w, s, side, g) == Unrest(w, s, side, f)
  {
  }

  lemma {:induction false} CalmsEachFrame(w: World, g: State, s: Stand, dts: seq<real>, least: real, n: nat)
    requires n <= |dts| && least >= 0.0 && Forward(dts, least)
    requires Still(w, s) && g.body == Some(s.body) && Sound(g.left) && Sound(g.right)
    ensures var h := StandFor(w, g, s, dts, n);
            AtRest(w, s, h) || AllUnrest(w, s, h) <= AllUnrest(w, s, g) - n as real * Progress(least)
  {
    hide Step, Sound, AtRest, AllUnrest, Progress;
    if n > 0 {
      CalmsEachFrame(w, g, s, dts, least, n - 1);
      StandForSound(w, g, s, dts, n - 1);
      StandStepCalms(w, StandFor(w, g, s, dts, n - 1), s, dts[n - 1]);
      ProgressRises(least, dts[n - 1]);
      OneMore(n, Progress(least));
    }
  }

  lemma OneMore(n: nat, p: real)
    requires n > 0
    ensures n as real * p == (n - 1) as real * p + p
  {
    assert n as real == (n - 1) as real + 1.0;
  }

  lemma ProgressRises(a: real, b: real)
    requires a <= b
    ensures Progress(a) <= Progress(b)
  {
    assert SETTLE_RATE * a <= SETTLE_RATE * b;
  }

  /** Main result: standing so long enough, frames of at least `least` seconds, the feet come to rest,
      both planted within the settle distance; and at rest they stay. */
  lemma ComesToRest(w: World, g: State, s: Stand, dts: seq<real>, least: real, n: nat)
    requires n <= |dts| && least > 0.0 && Forward(dts, least)
    requires Still(w, s) && g.body == Some(s.body) && Sound(g.left) && Sound(g.right)
    requires n as real * Progress(least) > 10.0
    ensures AtRest(w, s, StandFor(w, g, s, dts, n))
  {
    hide Sound;
    CalmsEachFrame(w, g, s, dts, least, n);
    var h := StandFor(w, g, s, dts, n);
    UnrestBounds(w, s, 0, g.left);
    UnrestBounds(w, s, 1, g.right);
    UnrestBounds(w, s, 0, h.left);
    UnrestBounds(w, s, 1, h.right);
    hide Unrest;
  }
}
