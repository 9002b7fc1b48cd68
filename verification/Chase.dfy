/** The chase camera: a spring on its lag behind the moving suit, a tether on that lag's length, and a
    clamp, here a parameter, that moves it off bodies. */
module Chase {
  import opened Exponential
  import opened Vectors
  import Springs

  const OMEGA: real := 4.5
  const SLACK: real := 25.0
  const BACK: real := 42.0
  const RISE: real := 10.0
  const GROUND_BACK: real := 36.0
  const GROUND_RISE: real := 14.0
  const GROUND_EASE: real := 3.0
  const CUT: real := 300.0

  // ---- The spring ----

  function Offset(e: real -> real, w: real, y: Vec3, v: Vec3, dt: real): (Vec3, Vec3) {
    var a := Springs.Step(e, w, y.x, v.x, dt);
    var b := Springs.Step(e, w, y.y, v.y, dt);
    var c := Springs.Step(e, w, y.z, v.z, dt);
    (Vec3(a.0, b.0, c.0), Vec3(a.1, b.1, c.1))
  }

  /** A critically damped spring's step toward `target`: where `x` and `v` get to. */
  function Spring(e: real -> real, x: Vec3, v: Vec3, target: Vec3, w: real, dt: real): (Vec3, Vec3) {
    var o := Offset(e, w, x.Sub(target), v, dt);
    (target.Add(o.0), o.1)
  }

  lemma OffsetFlow(e: real -> real, w: real, y: Vec3, v: Vec3, t: real, s: real)
    requires IsExp(e)
    ensures var m := Offset(e, w, y, v, t);
            Offset(e, w, m.0, m.1, s) == Offset(e, w, y, v, t + s)
  {
    hide IsExp, Springs.Step;
    Springs.Flow(e, w, y.x, v.x, t, s);
    Springs.Flow(e, w, y.y, v.y, t, s);
    Springs.Flow(e, w, y.z, v.z, t, s);
  }

  lemma BackToOffset(target: Vec3, o: Vec3)
    ensures target.Add(o).Sub(target) == o
  {
  }

  /** How time is cut into frames does not matter: two steps are one step of their length. */
  lemma SpringAnyFrameRate(e: real -> real, x: Vec3, v: Vec3, target: Vec3, w: real, t: real, s: real)
    requires IsExp(e)
    ensures var m := Spring(e, x, v, target, w, t);
            Spring(e, m.0, m.1, target, w, s) == Spring(e, x, v, target, w, t + s)
  {
    hide IsExp, Offset;
    var o := Offset(e, w, x.Sub(target), v, t);
    BackToOffset(target, o.0);
    OffsetFlow(e, w, x.Sub(target), v, t, s);
  }

  // ---- The rig ----

  datatype Follow = Follow(pos: Vec3, vel: Vec3, aim: Vec3, up: Vec3, cut: bool, ground: bool) {

    /** Between its place in flight (`mix` 0) and its place on a body (`mix` 1). */
    function IdealAt(mix: real): Vec3 {
      var back := BACK + (GROUND_BACK - BACK) * mix;
      var rise := RISE + (GROUND_RISE - RISE) * mix;
      pos.Sub(aim.Mul(back)).Add(up.Mul(rise))
    }

    function Goal(): real {
      if ground then 1.0 else 0.0
    }
  }

  /** The camera's place in flight is 42 m behind the suit along its aim and 10 m above it, on a body 36 m behind and
      14 m above, with the aim level. */
  lemma IdealIs(f: Follow, mix: real)
    requires f.aim.Dot(f.aim) == 1.0 && f.up.Dot(f.up) == 1.0 && f.aim.Dot(f.up) == 0.0
    ensures var lag := f.IdealAt(mix).Sub(f.pos);
            lag.Dot(f.aim) == -(42.0 - 6.0 * mix) && lag.Dot(f.up) == 10.0 + 4.0 * mix
  {
    var back, rise := BACK + (GROUND_BACK - BACK) * mix, RISE + (GROUND_RISE - RISE) * mix;
    var lag := f.IdealAt(mix).Sub(f.pos);
    assert lag == f.up.Mul(rise).Sub(f.aim.Mul(back));
    DotSub(f.up.Mul(rise), f.aim.Mul(back), f.aim);
    DotSub(f.up.Mul(rise), f.aim.Mul(back), f.up);
    DotMul(f.up, f.aim, rise);
    DotMul(f.aim, f.aim, back);
    DotMul(f.up, f.up, rise);
    DotMul(f.aim, f.up, back);
    assert f.up.Dot(f.aim) == f.aim.Dot(f.up);
  }

  datatype Rig = Rig(placed: bool, pos: Vec3, vel: Vec3, ground: real)

  /** What the rig is run with: the exponential, lengths, and the clamp short of a body. */
  datatype World = World(e: real -> real, length: Vec3 -> real, clamp: (Vec3, Vec3) -> Vec3)

  ghost predicate Real(w: World) {
    IsExp(w.e) && IsLength(w.length)
  }

  /** Clamped in two legs: to a point straight above the suit, then from there. */
  function Reach(w: World, f: Follow, x: Vec3): Vec3 {
    var h := x.Sub(f.pos).Dot(f.up);
    var over := f.pos.Add(f.up.Mul(if h > 0.0 then h else 0.0));
    w.clamp(w.clamp(f.pos, over), x)
  }

  function EasedGround(w: World, ground: real, goal: real, dt: real): real {
    ground + (goal - ground) * (1.0 - w.e(-GROUND_EASE * dt))
  }

  function Cuts(w: World, r: Rig, f: Follow, ideal: Vec3, dt: real): bool {
    !r.placed || f.cut || w.length(r.pos.Add(r.vel.Mul(dt)).Sub(ideal)) > CUT
  }

  function GroundAfter(w: World, r: Rig, f: Follow, dt: real): real {
    if !r.placed || f.cut then f.Goal() else EasedGround(w, r.ground, f.Goal(), dt)
  }

  /** Where the spring alone takes the camera, and its velocity against the suit's. */
  function Sprung(w: World, r: Rig, f: Follow, ideal: Vec3, dt: real): (Vec3, Vec3) {
    Spring(w.e, r.pos.Add(f.vel.Mul(dt)), r.vel.Sub(f.vel), ideal, OMEGA, dt)
  }

  /** Brought back to the slack along its lag, the outward part of its lag's rate taken off. */
  function Tethered(w: World, x: Vec3, u: Vec3, ideal: Vec3): (Vec3, Vec3) {
    var off := x.Sub(ideal);
    var len := w.length(off);
    if len > SLACK then
      var n := off.Mul(1.0 / len);
      var out := u.Dot(n);
      (ideal.Add(n.Mul(SLACK)), u.Sub(n.Mul(if out > 0.0 then out else 0.0)))
    else (x, u)
  }

  function Step(w: World, r: Rig, f: Follow, dt: real): (Rig, bool) {
    var ground := GroundAfter(w, r, f, dt);
    var ideal := f.IdealAt(ground);
    if Cuts(w, r, f, ideal, dt) then (Rig(true, Reach(w, f, ideal), f.vel, ground), true)
    else
      var s := Sprung(w, r, f, ideal, dt);
      var t := Tethered(w, s.0, s.1, ideal);
      (Rig(true, Reach(w, f, t.0), t.1.Add(f.vel), ground), false)
  }

  class ChaseRig {
    const w: World
    var placed: bool
    var pos: Vec3
    var vel: Vec3
    var ground: real

    function Abstract(): Rig
      reads this
    {
      Rig(placed, pos, vel, ground)
    }

    constructor (w: World)
      ensures this.w == w && Abstract() == Rig(false, ZERO, ZERO, 0.0)
    {
      this.w := w;
      placed, pos, vel, ground := false, ZERO, ZERO, 0.0;
    }

    method StepClamped(f: Follow, dt: real) returns (cut: bool)
      modifies this
      ensures (Abstract(), cut) == Step(w, old(Abstract()), f, dt)
    {
      hide Spring, Follow.IdealAt, EasedGround, Reach;
      var goal := if f.ground then 1.0 else 0.0;
      cut := !placed || f.cut;
      ground := if cut then goal else EasedGround(w, ground, goal, dt);
      var ideal := f.IdealAt(ground);
      if cut || w.length(pos.Add(vel.Mul(dt)).Sub(ideal)) > CUT {
        placed, pos, vel := true, Reach(w, f, ideal), f.vel;
        return true;
      }
      var x := pos.Add(f.vel.Mul(dt));
      var u := vel.Sub(f.vel);
      var s := Spring(w.e, x, u, ideal, OMEGA, dt);
      x, u := s.0, s.1;
      var off := x.Sub(ideal);
      var len := w.length(off);
      if len > SLACK {
        var n := off.Mul(1.0 / len);
        x := ideal.Add(n.Mul(SLACK));
        u := u.Sub(n.Mul(if u.Dot(n) > 0.0 then u.Dot(n) else 0.0));
      }
      pos := Reach(w, f, x);
      vel := u.Add(f.vel);
      return false;
    }
  }

  // ---- Main results ----

  /** Nothing in the way. */
  ghost predicate Clear(w: World) {
    forall a, b :: w.clamp(a, b) == b
  }

  lemma ReachClear(w: World, f: Follow, x: Vec3)
    requires Clear(w)
    ensures Reach(w, f, x) == x
  {
  }

  /** The direction of a vector longer than the tether has length one. */
  lemma UnitDot(w: World, off: Vec3)
    requires IsLength(w.length) && w.length(off) > 0.0
    ensures var n := off.Mul(1.0 / w.length(off)); n.Dot(n) == 1.0
  {
    var len := w.length(off);
    var k := 1.0 / len;
    DotMul(off, off.Mul(k), k);
    DotMul(off, off, k);
    assert off.Mul(k).Dot(off.Mul(k)) == k * (k * off.Dot(off));
    assert len * len == off.Dot(off);
    Unit(k, len, off.Dot(off));
  }

  lemma Unit(k: real, len: real, d: real)
    requires len > 0.0 && k == 1.0 / len && d == len * len
    ensures k * (k * d) == 1.0
  {
    assert k * len == 1.0;
    assert k * d == k * len * len;
    assert k * (k * d) == (k * len) * (k * len);
  }

  /** Every step that does not cut ends within the slack of the camera's place; held at the end of
      it, the camera is no longer moving away from its place. */
  lemma TetherHolds(w: World, r: Rig, f: Follow, dt: real)
    requires Real(w) && Clear(w) && !Step(w, r, f, dt).1
    ensures var ideal := f.IdealAt(GroundAfter(w, r, f, dt));
            var (x, u) := Sprung(w, r, f, ideal, dt);
            var end := Step(w, r, f, dt).0;
            var off := end.pos.Sub(ideal);
            && off.Dot(off) <= SLACK * SLACK
            && (w.length(x.Sub(ideal)) > SLACK ==> off.Dot(off) == SLACK * SLACK && end.vel.Sub(f.vel).Dot(off) <= 0.0)
            && (w.length(x.Sub(ideal)) <= SLACK ==> end.pos == x && end.vel == u.Add(f.vel))
  {
    hide IsExp, Sprung, Follow.IdealAt, GroundAfter;
    var ideal := f.IdealAt(GroundAfter(w, r, f, dt));
    var s := Sprung(w, r, f, ideal, dt);
    var t := Tethered(w, s.0, s.1, ideal);
    ReachClear(w, f, t.0);
    TetherBounds(w, s.0, s.1, ideal);
    assert t.1.Add(f.vel).Sub(f.vel) == t.1;
  }

  lemma TetherBounds(w: World, x: Vec3, u: Vec3, ideal: Vec3)
    requires IsLength(w.length)
    ensures var t := Tethered(w, x, u, ideal);
            var off := t.0.Sub(ideal);
            && off.Dot(off) <= SLACK * SLACK
            && (w.length(x.Sub(ideal)) > SLACK ==> off.Dot(off) == SLACK * SLACK && t.1.Dot(off) <= 0.0)
  {
    var off := x.Sub(ideal);
    var len := w.length(off);
    if len > SLACK {
      HeldAtEnd(w, off, u, ideal);
    } else {
      assert len * len == off.Dot(off);
      Square(len, SLACK);
    }
  }

  lemma Square(a: real, b: real)
    requires 0.0 <= a <= b
    ensures a * a <= b * b
  {
  }

  lemma HeldAtEnd(w: World, off: Vec3, u: Vec3, ideal: Vec3)
    requires IsLength(w.length) && w.length(off) > SLACK
    ensures var n := off.Mul(1.0 / w.length(off));
            var out := u.Dot(n);
            var d := ideal.Add(n.Mul(SLACK)).Sub(ideal);
            var v := u.Sub(n.Mul(if out > 0.0 then out else 0.0));
            d.Dot(d) == SLACK * SLACK && v.Dot(d) <= 0.0
  {
    var n := off.Mul(1.0 / w.length(off));
    UnitDot(w, off);
    hide IsLength;
    var out := u.Dot(n);
    var k := if out > 0.0 then out else 0.0;
    var d := ideal.Add(n.Mul(SLACK)).Sub(ideal);
    assert d == n.Mul(SLACK) by {
      BackToOffset(ideal, n.Mul(SLACK));
    }
    hide Vec3.Mul, Vec3.Add, Vec3.Sub, Vec3.Dot;
    DotMul(n, n.Mul(SLACK), SLACK);
    DotMul(n, n, SLACK);
    var v := u.Sub(n.Mul(k));
    DotMul(v, n, SLACK);
    DotSub(u, n.Mul(k), n);
    DotMul(n, n, k);
  }

  /** Held, the camera is 25 m off along the line it was on; a rate toward its place is left alone, and of one away
      only the part along that line is taken off. */
  lemma TetherLaw(w: World, x: Vec3, u: Vec3, ideal: Vec3, side: Vec3)
    requires IsLength(w.length)
    ensures var off, len, t := x.Sub(ideal), w.length(x.Sub(ideal)), Tethered(w, x, u, ideal);
            && (len <= 25.0 ==> t == (x, u))
            && (len > 25.0 ==>
                  && t.0.Sub(ideal) == off.Mul(1.0 / len).Mul(25.0)
                  && (u.Dot(off) <= 0.0 ==> t.1 == u) && (u.Dot(off) > 0.0 ==> t.1.Dot(off) == 0.0)
                  && (side.Dot(off) == 0.0 ==> t.1.Dot(side) == u.Dot(side)))
  {
    var off := x.Sub(ideal);
    var len := w.length(off);
    if len > 25.0 {
      var n := off.Mul(1.0 / len);
      UnitDot(w, off);
      BackToOffset(ideal, n.Mul(25.0));
      hide IsLength;
      var out := u.Dot(n);
      DotMul(off, u, 1.0 / len);
      DotMul(off, side, 1.0 / len);
      assert u.Dot(n) == (1.0 / len) * u.Dot(off);
      SignOf(1.0 / len, u.Dot(off));
      var k := if out > 0.0 then out else 0.0;
      TakenOff(u, n, k, off, len, side);
    }
  }

  lemma SignOf(k: real, d: real)
    requires k > 0.0
    ensures d > 0.0 <==> k * d > 0.0
  {
    if d > 0.0 {
      assert k * d > 0.0;
    } else {
      assert k * -d >= 0.0;
    }
  }

  lemma TakenOff(u: Vec3, n: Vec3, k: real, off: Vec3, len: real, side: Vec3)
    requires len > 0.0 && n == off.Mul(1.0 / len) && n.Dot(n) == 1.0 && k == if u.Dot(n) > 0.0 then u.Dot(n) else 0.0
    ensures k == 0.0 ==> u.Sub(n.Mul(k)) == u
    ensures k > 0.0 ==> u.Sub(n.Mul(k)).Dot(off) == 0.0
    ensures side.Dot(off) == 0.0 ==> u.Sub(n.Mul(k)).Dot(side) == u.Dot(side)
  {
    var v := u.Sub(n.Mul(k));
    assert off == n.Mul(len) by {
      assert len * (1.0 / len) == 1.0;
      ScaledBack(off, 1.0 / len, len);
    }
    hide Vec3.Mul, Vec3.Sub, Vec3.Dot;
    DotSub(u, n.Mul(k), n);
    DotMul(n, n, k);
    DotMul(v, n, len);
    DotMul(n, v, len);
    DotSub(u, n.Mul(k), side);
    DotMul(n, side, k);
    DotMul(off, side, 1.0 / len);
    Symmetric(off, side);
    NothingTaken(u, n);
  }

  lemma ScaledBack(v: Vec3, a: real, b: real)
    requires b * a == 1.0
    ensures v.Mul(a).Mul(b) == v
  {
    assert v.x * a * b == v.x * (b * a) && v.y * a * b == v.y * (b * a) && v.z * a * b == v.z * (b * a);
  }

  lemma Symmetric(a: Vec3, b: Vec3)
    ensures a.Dot(b) == b.Dot(a)
  {
  }

  lemma NothingTaken(u: Vec3, n: Vec3)
    ensures u.Sub(n.Mul(0.0)) == u
  {
  }

  /** A step cuts exactly when the rig is new, is told to, or would be more than 300 m from its place; and then it is
      put there, as far as nothing is in the way, moving with the suit. */
  lemma CutIff(w: World, r: Rig, f: Follow, dt: real)
    requires IsLength(w.length)
    ensures var ideal := f.IdealAt(GroundAfter(w, r, f, dt));
            var far := r.pos.Add(r.vel.Mul(dt)).Sub(ideal);
            && (Step(w, r, f, dt).1 <==> !r.placed || f.cut || far.Dot(far) > 90_000.0)
            && (Step(w, r, f, dt).1 ==>
                  Step(w, r, f, dt).0.pos == Reach(w, f, ideal) && Step(w, r, f, dt).0.vel == f.vel)
  {
    var ideal := f.IdealAt(GroundAfter(w, r, f, dt));
    var far := r.pos.Add(r.vel.Mul(dt)).Sub(ideal);
    var len := w.length(far);
    assert len >= 0.0 && len * len == far.Dot(far);
    hide IsLength, Follow.IdealAt, GroundAfter, Sprung, Tethered;
    FurtherThan(len);
  }

  lemma FurtherThan(len: real)
    requires len >= 0.0
    ensures len > 300.0 <==> len * len > 90_000.0
  {
    if len > 300.0 {
      assert len * len >= 300.0 * len;
    } else {
      Square(len, 300.0);
    }
  }

  /** On a body the mix closes on 1, in flight on 0, leaving e(-3 t) of the gap after `t` seconds; a rig that is new,
      or told to cut, has it at once. */
  lemma GroundLaw(w: World, r: Rig, f: Follow, dt: real)
    ensures var goal := if f.ground then 1.0 else 0.0;
            var gap := if r.placed && !f.cut then (r.ground - goal) * w.e(-3.0 * dt) else 0.0;
            GroundAfter(w, r, f, dt) - goal == gap
  {
    var goal := if f.ground then 1.0 else 0.0;
    var left := w.e(-3.0 * dt);
    assert r.ground + (goal - r.ground) * (1.0 - left) - goal == (r.ground - goal) * left;
  }

  /** The camera's lag behind a free suit, one coordinate at a time: critically damped, of rate 4.5 a second. */
  lemma LagLaw(e: real -> real, y: Vec3, v: Vec3, t: real)
    ensures var (o, left) := (Offset(e, OMEGA, y, v, t), e(-4.5 * t));
            && o.0.x == (y.x + (v.x + y.x * 4.5) * t) * left && o.1.x == (v.x - (v.x + y.x * 4.5) * (4.5 * t)) * left
            && o.0.y == (y.y + (v.y + y.y * 4.5) * t) * left && o.1.y == (v.y - (v.y + y.y * 4.5) * (4.5 * t)) * left
            && o.0.z == (y.z + (v.z + y.z * 4.5) * t) * left && o.1.z == (v.z - (v.z + y.z * 4.5) * (4.5 * t)) * left
  {
  }

  /** A point over the suit, straight above it along its up by as much as `x` is over it, or the suit itself where `x`
      is not. */
  predicate Overhead(f: Follow, x: Vec3, over: Vec3) {
    var h := x.Sub(f.pos).Dot(f.up);
    (over == f.pos.Add(f.up.Mul(h)) && h >= 0.0) || (over == f.pos && h <= 0.0)
  }

  /** A place is reached by way of the point overhead: the clamp first from the suit to there, then from where that
      stops to the place. */
  lemma ReachGoesOver(w: World, f: Follow, x: Vec3, over: Vec3)
    requires Overhead(f, x, over)
    ensures Reach(w, f, x) == w.clamp(w.clamp(f.pos, over), x)
  {
    assert f.pos.Add(f.up.Mul(0.0)) == f.pos;
  }

  /** The suit `dt` seconds on in uniform motion. */
  function Later(f: Follow, dt: real): Follow {
    f.(pos := f.pos.Add(f.vel.Mul(dt)))
  }

  /** The rig chases freely over a step: no cut, and the tether slack. */
  ghost predicate Free(w: World, r: Rig, f: Follow, dt: real) {
    var ideal := f.IdealAt(f.Goal());
    && r.placed && r.ground == f.Goal() && !f.cut
    && !Cuts(w, r, f, ideal, dt)
    && w.length(Sprung(w, r, f, ideal, dt).0.Sub(ideal)) <= SLACK
  }

  /** The rig seen from the camera's place: how far off it is, and how fast that changes. */
  function Lag(r: Rig, f: Follow): (Vec3, Vec3) {
    (r.pos.Sub(f.IdealAt(f.Goal())), r.vel.Sub(f.vel))
  }

  /** In the frame of a uniformly moving suit, a free step is the spring's flow and nothing else. */
  lemma FreeStepIsSpring(w: World, r: Rig, f: Follow, dt: real)
    requires Clear(w) && Free(w, r, Later(f, dt), dt)
    ensures var (after, cut) := Step(w, r, Later(f, dt), dt);
            && !cut && after.placed && after.ground == f.Goal()
            && Lag(after, Later(f, dt)) == Offset(w.e, OMEGA, Lag(r, f).0, Lag(r, f).1, dt)
  {
    var g := Later(f, dt);
    var ideal := g.IdealAt(g.Goal());
    assert GroundAfter(w, r, g, dt) == g.Goal();
    PlaceMovesAlong(f, r.pos, dt);
    hide Offset, Follow.IdealAt, Reach;
    var s := Sprung(w, r, g, ideal, dt);
    var o := Offset(w.e, OMEGA, Lag(r, f).0, Lag(r, f).1, dt);
    assert s == (ideal.Add(o.0), o.1);
    ReachClear(w, g, s.0);
    BackToOffset(ideal, o.0);
    assert o.1.Add(g.vel).Sub(g.vel) == o.1;
  }

  /** The camera's place moves with the suit. */
  lemma PlaceMovesAlong(f: Follow, pos: Vec3, dt: real)
    ensures var g := Later(f, dt);
            pos.Add(g.vel.Mul(dt)).Sub(g.IdealAt(g.Goal())) == pos.Sub(f.IdealAt(f.Goal()))
  {
    var g := Later(f, dt);
    assert g.IdealAt(g.Goal()) == f.IdealAt(f.Goal()).Add(f.vel.Mul(dt));
  }

  /** Main result: following a suit in uniform motion, free steps of `t` and `s` seconds take the
      whole rig exactly where one free step of `t + s` would. */
  lemma RigAnyFrameRate(w: World, r: Rig, f: Follow, t: real, s: real)
    requires Real(w) && Clear(w)
    requires Free(w, r, Later(f, t), t)
    requires Free(w, Step(w, r, Later(f, t), t).0, Later(Later(f, t), s), s)
    requires Free(w, r, Later(f, t + s), t + s)
    ensures Step(w, Step(w, r, Later(f, t), t).0, Later(Later(f, t), s), s)
         == Step(w, r, Later(f, t + s), t + s)
  {
    hide Step, Free, IsExp, IsLength, Offset, Follow.IdealAt;
    var mid := Step(w, r, Later(f, t), t).0;
    FreeStepIsSpring(w, r, f, t);
    FreeStepIsSpring(w, mid, Later(f, t), s);
    FreeStepIsSpring(w, r, f, t + s);
    OffsetFlow(w.e, OMEGA, Lag(r, f).0, Lag(r, f).1, t, s);
    LaterLater(f, t, s);
    var a := Step(w, mid, Later(Later(f, t), s), s).0;
    var b := Step(w, r, Later(f, t + s), t + s).0;
    SameLagSameRig(a, b, Later(f, t + s));
  }

  lemma LaterLater(f: Follow, t: real, s: real)
    ensures Later(Later(f, t), s) == Later(f, t + s)
  {
    var v := f.vel;
    assert v.x * (t + s) == v.x * t + v.x * s;
    assert v.y * (t + s) == v.y * t + v.y * s;
    assert v.z * (t + s) == v.z * t + v.z * s;
  }

  lemma SameLagSameRig(a: Rig, b: Rig, f: Follow)
    requires Lag(a, f) == Lag(b, f)
    ensures a.pos == b.pos && a.vel == b.vel
  {
    var i := f.IdealAt(f.Goal());
    hide Follow.IdealAt;
    assert a.pos.Sub(i) == b.pos.Sub(i) && a.vel.Sub(f.vel) == b.vel.Sub(f.vel);
  }

  /** In its place and moving with the suit, it stays there. */
  lemma SitsInPlace(w: World, r: Rig, f: Follow, dt: real)
    requires Real(w) && Clear(w) && r.placed && !f.cut
    requires r.ground == f.Goal() && Lag(r, f) == (ZERO, ZERO)
    ensures var (after, cut) := Step(w, r, Later(f, dt), dt);
            !cut && after.ground == f.Goal() && Lag(after, Later(f, dt)) == (ZERO, ZERO)
  {
    var g := Later(f, dt);
    var ideal := g.IdealAt(g.Goal());
    PlaceMovesAlong(f, r.pos, dt);
    NoDifference(r.vel, f.vel);
    NoDifference(ideal, ideal);
    hide Vec3.Add, Vec3.Sub, Vec3.Mul, Follow.IdealAt, IsExp, IsLength, Offset;
    ZeroLength(w);
    assert !Cuts(w, r, g, ideal, dt);
    RestStays(w.e, dt);
    AddZero(ideal);
    assert Sprung(w, r, g, ideal, dt) == (ideal, ZERO);
    hide Sprung, Cuts;
    assert Free(w, r, g, dt);
    FreeStepIsSpring(w, r, f, dt);
  }

  lemma NoDifference(a: Vec3, b: Vec3)
    ensures a.Sub(b) == ZERO <==> a == b
  {
  }

  lemma AddZero(a: Vec3)
    ensures a.Add(ZERO) == a
  {
  }

  lemma RestStays(e: real -> real, dt: real)
    ensures Offset(e, OMEGA, ZERO, ZERO, dt) == (ZERO, ZERO)
  {
    assert Springs.Push(0.0, 0.0, OMEGA) == 0.0;
    assert Springs.Step(e, OMEGA, 0.0, 0.0, dt) == (0.0, 0.0);
  }

  lemma ZeroLength(w: World)
    requires IsLength(w.length)
    ensures w.length(ZERO) == 0.0
  {
    var l := w.length(ZERO);
    assert l * l == ZERO.Dot(ZERO) == 0.0;
    RootOfZero(l);
  }

  lemma RootOfZero(l: real)
    requires l * l == 0.0
    ensures l == 0.0
  {
    if l != 0.0 {
      ZeroFactor(l, l);
    }
  }

  lemma ZeroFactor(a: real, b: real)
    requires a * b == 0.0 && b != 0.0
    ensures a == 0.0
  {
  }

  /** The mix between flight and ground places composes over time too. */
  lemma GroundAnyFrameRate(w: World, ground: real, goal: real, t: real, s: real)
    requires IsExp(w.e)
    ensures EasedGround(w, EasedGround(w, ground, goal, t), goal, s) == EasedGround(w, ground, goal, t + s)
  {
    var et, es := w.e(-GROUND_EASE * t), w.e(-GROUND_EASE * s);
    assert w.e(-GROUND_EASE * (t + s)) == et * es by {
      assert -GROUND_EASE * (t + s) == -GROUND_EASE * t + -GROUND_EASE * s;
      Sum(w.e, -GROUND_EASE * t, -GROUND_EASE * s);
    }
    EasedTwice(ground, goal, et, es);
  }

  lemma EasedTwice(ground: real, goal: real, et: real, es: real)
    ensures var m := ground + (goal - ground) * (1.0 - et);
            m + (goal - m) * (1.0 - es) == ground + (goal - ground) * (1.0 - et * es)
  {
    var d := goal - ground;
    var m := ground + d * (1.0 - et);
    assert goal - m == d * et;
    assert d * et * (1.0 - es) == d * et - d * (et * es);
  }
}
