/** First-flight hints: one at a time, gone once done or after a while, never shown again once seen. */
module Hints {
  import opened Wrappers
  import opened FiniteSets

  datatype Hint =
    | Thrust | Boost | Fire | FlightAssist | Salvage | Menu | Walk | Use | Launch | Dock | Camera | Grip
    | Surface | Hide | Map | Lock | BurstStep | Airlock | City | InnerGate | HubLanding | Hover | Gantry | Hungry
  {
    /** Its place in the seen set. */
    function Bit(): nat {
      match this
      case Thrust => 0 case Boost => 1 case Fire => 2 case FlightAssist => 3 case Salvage => 4 case Menu => 5
      case Walk => 6 case Use => 7 case Launch => 8 case Dock => 9 case Camera => 10 case Grip => 11
      case Surface => 12 case Hide => 13 case Map => 14 case Lock => 15 case BurstStep => 16 case Airlock => 17
      case City => 18 case InnerGate => 19 case HubLanding => 20 case Hover => 21 case Gantry => 22 case Hungry => 23
    }

    predicate OnFoot() {
      Walk? || Use? || Launch? || Airlock? || City? || Hungry?
    }

    predicate InPlace(i: Input) {
      match this
      case Use | Launch | Airlock => !i.inCity && !i.onDeck
      case City => i.inCity
      case InnerGate => i.inside && !i.trainer
      case Hover => i.inside
      case Gantry => i.inside && i.trainer
      case Dock | HubLanding => !i.inside
      case _ => true
    }

    predicate Due(i: Input) {
      match this
      case Use | Launch => !i.inCity && !i.onDeck
      case Airlock => !i.inCity && !i.onDeck && i.survival
      case City => i.inCity
      case Dock => i.survival && !i.inside
      case InnerGate => i.inside && !i.trainer
      case Hover => i.inside
      case Gantry => i.inside && i.trainer
      case HubLanding => i.survival && i.nearHub
      case Grip => i.nearSurface && !i.gripping
      case Surface => i.grounded
      case Hide => i.grounded && i.inHideSpot
      case Lock => i.hostileNear && !i.locked
      case BurstStep => i.locked
      case Hungry => i.hungry
      case _ => true
    }

    function MaxSecs(): real {
      match this
      case Thrust | Fire | Walk => 20.0
      case Use | Launch | Airlock | City | HubLanding | Hungry => 30.0
      case InnerGate | Gantry => 15.0
      case Hover => 18.0
      case Dock | Camera | Grip | Hide | Map | Lock | BurstStep => 15.0
      case Surface => 20.0
      case _ => 9.0
    }

    /** The pilot is doing what it says. */
    predicate Acting(i: Input) {
      match this
      case Thrust => i.thrusting
      case Boost => i.boosting
      case Fire => i.firing
      case FlightAssist => i.toggledAssist
      case Salvage => i.grabbing
      case Menu => false
      case Walk => i.strolling
      case Use => i.using
      case Launch => i.boarding
      case Dock => i.docking
      case Camera => i.switchedCamera
      case Grip => i.gripping
      case Surface => i.walked
      case Hide => i.hidden
      case Map => i.openedMap
      case Lock => i.locked
      case BurstStep => i.stepped
      case Airlock => i.wentDown
      case City => i.openedMap
      case InnerGate | Gantry => i.docking
      case Hover => false
      case HubLanding => i.docking || i.gripping
      case Hungry => !i.hungry
    }

    /** Doing it at all is enough. */
    predicate AtOnce() {
      FlightAssist? || Camera? || Salvage? || Use? || Launch? || Dock? || Grip? || Hide? || Map? || Lock?
      || BurstStep? || Airlock? || City? || InnerGate? || Gantry? || HubLanding? || Hungry?
    }
  }

  /** In the order they are shown. */
  const ALL: seq<Hint> := [
    Walk, Use, Airlock, City, Launch, Hungry, Thrust, Map, Boost, Fire, Lock, BurstStep, Camera, FlightAssist,
    Salvage, Dock, Hover, InnerGate, Gantry, Grip, HubLanding, Surface, Hide, Menu]

  const LAUNCHED: nat := 31
  const GAP: real := 2.0
  const DOING: real := 1.0

  /** A frame's report of the pilot. */
  datatype Input = Input(
    flying: bool, thrusting: bool, boosting: bool, firing: bool, toggledAssist: bool, switchedCamera: bool,
    grabbing: bool, survival: bool, walking: bool, strolling: bool, using: bool, boarding: bool, docking: bool,
    nearSurface: bool, gripping: bool, grounded: bool, walked: bool, hopped: bool, inHideSpot: bool, hidden: bool,
    openedMap: bool, hostileNear: bool, locked: bool, stepped: bool, colony: bool, inCity: bool, inside: bool,
    onDeck: bool, wentDown: bool, nearHub: bool, trainer: bool, hungry: bool)

  datatype State = State(current: Option<(Hint, real)>, doing: real, hopped: bool, nextAt: real)

  const NOTHING: State := State(None, 0.0, false, 0.0)

  datatype Frame = Frame(now: real, dt: real, i: Input)

  datatype Stepped = Stepped(state: State, seen: set<nat>, shown: Option<Hint>)

  // ---- One step ----

  /** What boarding and going down mark seen, shown or not. */
  function Marked(seen: set<nat>, i: Input): set<nat> {
    seen + (if i.boarding then {Launch.Bit(), LAUNCHED} else {}) + (if i.wentDown then {Airlock.Bit()} else {})
  }

  /** With the colony closed, the airlock's hint waits for the first launch. */
  predicate Waits(h: Hint, seen: set<nat>, i: Input) {
    h == Airlock && !i.colony && LAUNCHED !in seen
  }

  predicate Eligible(h: Hint, seen: set<nat>, i: Input) {
    h.Bit() !in seen && h.OnFoot() == i.walking && h.Due(i) && !Waits(h, seen, i)
  }

  /** The first eligible hint from place `k` on. */
  function FirstFrom(k: nat, seen: set<nat>, i: Input): Option<Hint>
    requires k <= |ALL|
    decreases |ALL| - k
  {
    if k == |ALL| then None else if Eligible(ALL[k], seen, i) then Some(ALL[k]) else FirstFrom(k + 1, seen, i)
  }

  /** The hint still up once the pilot's place is known. */
  function Staying(s: State, i: Input): Option<(Hint, real)> {
    if s.current.Some? && (s.current.value.0.OnFoot() != i.walking || !s.current.value.0.InPlace(i)) then None
    else s.current
  }

  function DoingAfter(s: State, h: Hint, f: Frame): real {
    if h.Acting(f.i) then s.doing + f.dt else s.doing
  }

  predicate Done(s: State, h: Hint, f: Frame) {
    if h == Surface then DoingAfter(s, h, f) >= DOING && (s.hopped || f.i.hopped)
    else DoingAfter(s, h, f) >= DOING || (h.Acting(f.i) && h.AtOnce())
  }

  /** The hint up is done with this frame: done, or out of patience. */
  predicate Finishes(s: State, f: Frame) {
    && (f.i.flying || f.i.walking) && Staying(s, f.i).Some?
    && var (h, since) := Staying(s, f.i).value;
       Done(s, h, f) || f.now - since > h.MaxSecs()
  }

  /** Nothing is up: what comes next, if its time has come. */
  function Next(s: State, seen: set<nat>, f: Frame): Stepped {
    if f.now < s.nextAt then Stepped(s, seen, None)
    else
      match FirstFrom(0, seen, f.i)
      case None => Stepped(s, seen, None)
      case Some(h) => Stepped(State(Some((h, f.now)), 0.0, false, s.nextAt), seen, Some(h))
  }

  function Step(s: State, seen: set<nat>, f: Frame): Stepped {
    var marked := Marked(seen, f.i);
    if !f.i.flying && !f.i.walking then Stepped(s, marked, None)
    else
      match Staying(s, f.i)
      case None => Next(s.(current := None), marked, f)
      case Some((h, since)) =>
        var up := s.(current := Staying(s, f.i), doing := DoingAfter(s, h, f), hopped := s.hopped || f.i.hopped);
        if Finishes(s, f)
        then Next(up.(current := None, nextAt := f.now + GAP), marked + {h.Bit()}, f)
        else Stepped(up, marked, Some(h))
  }

  class HintsShown {
    var current: Option<(Hint, real)>
    var doing: real
    var hopped: bool
    var nextAt: real

    function Abstract(): State
      reads this
    {
      State(current, doing, hopped, nextAt)
    }

    constructor ()
      ensures Abstract() == NOTHING
    {
      current, doing, hopped, nextAt := None, 0.0, false, 0.0;
    }

    method StepOnce(before: set<nat>, now: real, dt: real, i: Input) returns (seen: set<nat>, shown: Option<Hint>)
      modifies this
      ensures Stepped(Abstract(), seen, shown) == Step(old(Abstract()), before, Frame(now, dt, i))
    {
      hide Next, Hint.Acting, Hint.InPlace, Hint.MaxSecs, Hint.OnFoot, Hint.Bit, Hint.AtOnce;
      seen := before;
      if i.boarding {
        seen := seen + {Launch.Bit(), LAUNCHED};
      }
      if i.wentDown {
        seen := seen + {Airlock.Bit()};
      }
      assert seen == Marked(before, i);
      if !i.flying && !i.walking {
        return seen, None;
      }
      if current.Some? && (current.value.0.OnFoot() != i.walking || !current.value.0.InPlace(i)) {
        current := None;
      }
      if current.Some? {
        var (h, since) := current.value;
        var acting := h.Acting(i);
        doing := if acting then doing + dt else doing;
        hopped := hopped || i.hopped;
        var done := if h == Surface then doing >= DOING && hopped else doing >= DOING || (acting && h.AtOnce());
        if done || now - since > h.MaxSecs() {
          seen := seen + {h.Bit()};
          current := None;
          nextAt := now + GAP;
        } else {
          return seen, Some(h);
        }
      }
      shown := ShowNext(seen, now, dt, i);
    }

    /** Nothing is up: the first that is eligible, once the gap is over. */
    method ShowNext(seen: set<nat>, now: real, dt: real, i: Input) returns (shown: Option<Hint>)
      requires current.None?
      modifies this
      ensures Stepped(Abstract(), seen, shown) == Next(old(Abstract()), seen, Frame(now, dt, i))
    {
      hide FirstFrom;
      if now < nextAt {
        return None;
      }
      shown := Find(seen, i);
      if shown.Some? {
        current := Some((shown.value, now));
        doing := 0.0;
        hopped := false;
      }
    }

    static method Find(seen: set<nat>, i: Input) returns (h: Option<Hint>)
      ensures h == FirstFrom(0, seen, i)
    {
      hide ALL, Eligible;
      var k := 0;
      while k < |ALL|
        invariant k <= |ALL| && FirstFrom(0, seen, i) == FirstFrom(k, seen, i)
      {
        if Eligible(ALL[k], seen, i) {
          return Some(ALL[k]);
        }
        k := k + 1;
      }
      return None;
    }
  }

  // ---- The list ----

  /** No two hints share a bit, and none takes the launch's. */
  lemma BitsDistinct(a: Hint, b: Hint)
    ensures a.Bit() == b.Bit() <==> a == b
    ensures a.Bit() < 24 && LAUNCHED == 31
  {
  }

  /** A pilot, fed and doing nothing. */
  const IDLE: Input := Input(
    false, false, false, false, false, false, false, false, false, false, false, false, false, false, false, false,
    false, false, false, false, false, false, false, false, false, false, false, false, false, false, false, false)

  /** Deed by deed, which hints it is the doing of; in flight, */
  lemma FlyingDeeds(h: Hint)
    requires h != Hungry
    ensures !h.Acting(IDLE)
    ensures h.Acting(IDLE.(thrusting := true)) <==> h == Thrust
    ensures h.Acting(IDLE.(boosting := true)) <==> h == Boost
    ensures h.Acting(IDLE.(firing := true)) <==> h == Fire
    ensures h.Acting(IDLE.(toggledAssist := true)) <==> h == FlightAssist
    ensures h.Acting(IDLE.(grabbing := true)) <==> h == Salvage
  {
  }

  /** at the view, the chart and a target, */
  lemma ViewDeeds(h: Hint)
    requires h != Hungry
    ensures h.Acting(IDLE.(switchedCamera := true)) <==> h == Camera
    ensures h.Acting(IDLE.(locked := true)) <==> h == Lock
    ensures h.Acting(IDLE.(stepped := true)) <==> h == BurstStep
    ensures h.Acting(IDLE.(openedMap := true)) <==> h in {Map, City}
  {
  }

  /** on foot, */
  lemma FootDeeds(h: Hint)
    requires h != Hungry
    ensures h.Acting(IDLE.(strolling := true)) <==> h == Walk
    ensures h.Acting(IDLE.(using := true)) <==> h == Use
    ensures h.Acting(IDLE.(boarding := true)) <==> h == Launch
    ensures h.Acting(IDLE.(wentDown := true)) <==> h == Airlock
    ensures Hungry.Acting(IDLE) && !Hungry.Acting(IDLE.(hungry := true))
  {
  }

  /** landing and going home. */
  lemma LandingDeeds(h: Hint)
    requires h != Hungry
    ensures h.Acting(IDLE.(docking := true)) <==> h in {Dock, InnerGate, Gantry, HubLanding}
    ensures h.Acting(IDLE.(gripping := true)) <==> h in {Grip, HubLanding}
    ensures h.Acting(IDLE.(walked := true)) <==> h == Surface
    ensures h.Acting(IDLE.(hidden := true)) <==> h == Hide
  {
  }

  /** Hints that mean something whenever they are in place. */
  predicate Always(h: Hint) {
    h.Thrust? || h.Boost? || h.Fire? || h.FlightAssist? || h.Salvage? || h.Menu? || h.Walk? || h.Camera? || h.Map?
  }

  /** What besides means something when: in the bay, its terminals and the launch, and under survival rules its airlock
      and the dock; */
  lemma DueInTheBay(h: Hint)
    ensures h.Due(IDLE) <==> Always(h) || h.Use? || h.Launch?
    ensures h.Due(IDLE.(survival := true)) <==> Always(h) || h.Use? || h.Launch? || h.Airlock? || h.Dock?
    ensures h.Due(IDLE.(survival := true, onDeck := true)) <==> Always(h) || h.Dock?
  {
  }

  /** the city, and the docking hub; */
  lemma DueOutside(h: Hint)
    ensures h.Due(IDLE.(survival := true, inCity := true)) <==> Always(h) || h.City? || h.Dock?
    ensures h.Due(IDLE.(survival := true, nearHub := true))
       <==> Always(h) || h.Use? || h.Launch? || h.Airlock? || h.Dock? || h.HubLanding?
    ensures h.Due(IDLE.(nearHub := true)) <==> Always(h) || h.Use? || h.Launch?
  {
  }

  /** inside the colony, its gate or the trainers' gantry; */
  lemma DueInside(h: Hint)
    ensures h.Due(IDLE.(inside := true)) <==> Always(h) || h.Use? || h.Launch? || h.InnerGate? || h.Hover?
    ensures h.Due(IDLE.(inside := true, trainer := true)) <==> Always(h) || h.Use? || h.Launch? || h.Hover? || h.Gantry?
    ensures h.Due(IDLE.(inside := true, survival := true))
       <==> Always(h) || h.Use? || h.Launch? || h.Airlock? || h.InnerGate? || h.Hover?
  {
  }

  /** near a surface or on it; */
  lemma DueOnSurfaces(h: Hint)
    ensures h.Due(IDLE.(nearSurface := true)) <==> Always(h) || h.Use? || h.Launch? || h.Grip?
    ensures h.Due(IDLE.(nearSurface := true, gripping := true)) <==> Always(h) || h.Use? || h.Launch?
    ensures h.Due(IDLE.(grounded := true)) <==> Always(h) || h.Use? || h.Launch? || h.Surface?
    ensures h.Due(IDLE.(grounded := true, inHideSpot := true))
       <==> Always(h) || h.Use? || h.Launch? || h.Surface? || h.Hide?
    ensures h.Due(IDLE.(inHideSpot := true)) <==> Always(h) || h.Use? || h.Launch?
  {
  }

  /** and with a hostile near, or hungry. */
  lemma DueAtMoments(h: Hint)
    ensures h.Due(IDLE.(hostileNear := true)) <==> Always(h) || h.Use? || h.Launch? || h.Lock?
    ensures h.Due(IDLE.(hostileNear := true, locked := true)) <==> Always(h) || h.Use? || h.Launch? || h.BurstStep?
    ensures h.Due(IDLE.(hungry := true)) <==> Always(h) || h.Use? || h.Launch? || h.Hungry?
  {
  }

  /** How long hints stay unheeded: nine seconds unless they are slower to follow, and half a minute at the most. */
  lemma Patience(h: Hint)
    ensures h.MaxSecs() == 30.0 <==> h in {Use, Launch, Airlock, City, HubLanding, Hungry}
    ensures h.MaxSecs() == 20.0 <==> h in {Thrust, Fire, Walk, Surface}
    ensures h.MaxSecs() == 18.0 <==> h == Hover
    ensures h.MaxSecs() == 15.0 <==> h in {InnerGate, Gantry, Dock, Camera, Grip, Hide, Map, Lock, BurstStep}
    ensures h.MaxSecs() == 9.0 <==> h in {Boost, FlightAssist, Salvage, Menu}
  {
  }

  /** Where hints come, place by place: in the bay, out on its deck, in the city, and flying outside the colony, inside
      it, or inside it in a trainer. */
  lemma Places(h: Hint)
    ensures !h.InPlace(IDLE.(walking := true)) <==> h in {City, InnerGate, Hover, Gantry}
    ensures !h.InPlace(IDLE.(walking := true, onDeck := true))
       <==> h in {City, InnerGate, Hover, Gantry, Use, Launch, Airlock}
    ensures !h.InPlace(IDLE.(walking := true, inCity := true))
       <==> h in {InnerGate, Hover, Gantry, Use, Launch, Airlock}
    ensures !h.InPlace(IDLE.(flying := true)) <==> h in {City, InnerGate, Hover, Gantry}
    ensures !h.InPlace(IDLE.(flying := true, inside := true)) <==> h in {City, Gantry, Dock, HubLanding}
    ensures !h.InPlace(IDLE.(flying := true, inside := true, trainer := true))
       <==> h in {City, InnerGate, Dock, HubLanding}
  {
  }

  /** Where a hint is listed. */
  function Place(h: Hint): nat {
    match h
    case Walk => 0 case Use => 1 case Airlock => 2 case City => 3 case Launch => 4 case Hungry => 5
    case Thrust => 6 case Map => 7 case Boost => 8 case Fire => 9 case Lock => 10 case BurstStep => 11
    case Camera => 12 case FlightAssist => 13 case Salvage => 14 case Dock => 15 case Hover => 16 case InnerGate => 17
    case Gantry => 18 case Grip => 19 case HubLanding => 20 case Surface => 21 case Hide => 22 case Menu => 23
  }

  lemma Listed(h: Hint)
    ensures Place(h) < |ALL| && ALL[Place(h)] == h
  {
  }

  /** The first eligible hint is eligible, and everything listed before it is not. */
  lemma {:induction false} FirstIsFirst(k: nat, seen: set<nat>, i: Input)
    requires k <= |ALL|
    ensures match FirstFrom(k, seen, i)
            case Some(h) => Eligible(h, seen, i)
                            && exists j :: k <= j < |ALL| && ALL[j] == h
                                           && forall m :: k <= m < j ==> !Eligible(ALL[m], seen, i)
            case None => forall m :: k <= m < |ALL| ==> !Eligible(ALL[m], seen, i)
    decreases |ALL| - k
  {
    hide ALL, Eligible;
    if k < |ALL| {
      FirstIsFirst(k + 1, seen, i);
      if Eligible(ALL[k], seen, i) {
        assert ALL[k] == FirstFrom(k, seen, i).value;
      }
    }
  }

  // ---- Runs ----

  /** Boarding and going down are reported only while flying or walking. */
  predicate Proper(f: Frame) {
    f.i.boarding || f.i.wentDown ==> f.i.flying || f.i.walking
  }

  predicate Unseen(s: State, seen: set<nat>) {
    s.current.Some? ==> s.current.value.0.Bit() !in seen
  }

  lemma StepGrowsSeen(s: State, seen: set<nat>, f: Frame)
    ensures seen <= Step(s, seen, f).seen
  {
    hide ALL, FirstFrom, Hint.Due, Hint.Acting, Hint.InPlace, Hint.MaxSecs, Hint.OnFoot, Hint.Bit, Hint.AtOnce;
  }

  /** A hint that finishes had not been seen and now is, nothing is shown, and the next waits. */
  lemma StepFinishing(s: State, seen: set<nat>, f: Frame)
    requires Proper(f) && Unseen(s, seen) && Finishes(s, f)
    ensures var r := Step(s, seen, f);
            && r.shown == None && r.state.current == None && r.state.nextAt == f.now + GAP
            && s.current.value.0.Bit() !in seen && s.current.value.0.Bit() in r.seen
  {
    hide ALL, FirstFrom, Hint.Due, Hint.Acting, Hint.InPlace, Hint.MaxSecs, Hint.OnFoot, Hint.Bit, Hint.AtOnce;
  }

  /** What is up stays unseen; what is shown is up. */
  lemma StepKeepsUnseen(s: State, seen: set<nat>, f: Frame)
    requires Proper(f) && Unseen(s, seen)
    ensures var r := Step(s, seen, f);
            && Unseen(r.state, r.seen)
            && (r.shown.Some? ==> r.state.current.Some? && r.state.current.value.0 == r.shown.value
                                  && r.shown.value.Bit() !in r.seen && r.shown.value.OnFoot() == f.i.walking)
  {
    var marked := Marked(seen, f.i);
    if f.i.flying || f.i.walking {
      FirstIsFirst(0, marked, f.i);
      if Staying(s, f.i).Some? {
        var h := s.current.value.0;
        FirstIsFirst(0, marked + {h.Bit()}, f.i);
        MarkedHintFinishes(s, seen, f);
      }
    }
    hide ALL, FirstFrom, Hint.Due, Hint.Acting, Hint.InPlace, Hint.MaxSecs, Hint.OnFoot, Hint.Bit, Hint.AtOnce,
         Finishes;
  }

  /** A hint marked seen while it is up is done in the same frame. */
  lemma MarkedHintFinishes(s: State, seen: set<nat>, f: Frame)
    requires (f.i.flying || f.i.walking) && Staying(s, f.i).Some? && Unseen(s, seen)
    ensures s.current.value.0.Bit() in Marked(seen, f.i) ==> Finishes(s, f)
  {
    var h := s.current.value.0;
    BitsDistinct(h, Launch);
    BitsDistinct(h, Airlock);
    hide Hint.Bit;
    assert h.Bit() in Marked(seen, f.i) ==> (h == Launch && f.i.boarding) || (h == Airlock && f.i.wentDown);
  }

  /** Near the docking hub means near it outside the colony. */
  predicate HubIsOutside(i: Input) {
    i.nearHub ==> !i.inside
  }

  /** In such a frame the hint shown, if any, belongs where the pilot is. */
  lemma ShownFitsPlace(s: State, seen: set<nat>, f: Frame)
    requires HubIsOutside(f.i)
    ensures var r := Step(s, seen, f).shown; r.Some? ==> r.value.InPlace(f.i)
  {
    ShownFitsBarHub(s, seen, f);
  }

  /** A frame in which the hub's hint can be due where it does not belong. */
  predicate HubMisreported(i: Input) {
    i.flying && !i.walking && i.inside && i.nearHub && i.survival
  }

  lemma ShownFitsBarHub(s: State, seen: set<nat>, f: Frame)
    ensures var r := Step(s, seen, f).shown; r.Some? && !r.value.InPlace(f.i) ==> HubMisreported(f.i)
  {
    var marked := Marked(seen, f.i);
    FirstIsFirst(0, marked, f.i);
    if Staying(s, f.i).Some? {
      FirstIsFirst(0, marked + {s.current.value.0.Bit()}, f.i);
    }
    assert forall h: Hint, i: Input :: h.Due(i) ==>
          h.InPlace(i) || (h == HubLanding && i.inside && i.nearHub && i.survival);
    assert !HubLanding.OnFoot();
    hide ALL, FirstFrom, Hint.Due, Hint.Acting, Hint.InPlace, Hint.MaxSecs, Hint.OnFoot, Hint.Bit, Hint.AtOnce, Done;
  }

  /** The step relies on its caller for that, and on nothing else: it can show a hint out of place, whatever
      came before, exactly in a frame that reports the hub near while flying inside. */
  lemma AlwaysFitsIff(f: Frame)
    ensures (forall s: State, seen: set<nat> :: ShownFits(s, seen, f)) <==> !HubMisreported(f.i)
  {
    hide Step, HubMisreported, Hint.InPlace;
    forall s: State, seen: set<nat> | !HubMisreported(f.i)
      ensures ShownFits(s, seen, f)
    {
      ShownFitsBarHub(s, seen, f);
    }
    if HubMisreported(f.i) {
      HubShownInside(f);
      assert !ShownFits(Since(f), AllButHub(), f);
    }
  }

  predicate ShownFits(s: State, seen: set<nat>, f: Frame) {
    var r := Step(s, seen, f).shown;
    r.Some? ==> r.value.InPlace(f.i)
  }

  /** Nothing up, and the next due at the frame's own time. */
  function Since(f: Frame): State {
    NOTHING.(nextAt := f.now)
  }

  /** Every hint seen but the hub's. */
  function AllButHub(): set<nat> {
    {0, 1, 2, 3, 4, 5, 6, 7, 8, 9, 10, 11, 12, 13, 14, 15, 16, 17, 18, 19, 21, 22, 23}
  }

  lemma HubShownInside(f: Frame)
    requires HubMisreported(f.i)
    ensures Step(Since(f), AllButHub(), f).shown == Some(HubLanding) && !HubLanding.InPlace(f.i)
  {
    var seen := Marked(AllButHub(), f.i);
    assert HubLanding.Bit() !in seen;
    assert Eligible(HubLanding, seen, f.i);
    forall h: Hint | h != HubLanding
      ensures h.Bit() in seen
    {
      BitsDistinct(h, HubLanding);
    }
    FirstIsFirst(0, seen, f.i);
    Listed(HubLanding);
    hide FirstFrom, ALL, Hint.Bit, Marked, AllButHub;
    assert FirstFrom(0, seen, f.i).Some?;
  }

  /** The hints and the seen set after the first `k` frames of a run. */
  function After(run: seq<Frame>, seen: set<nat>, k: nat): Stepped
    requires k <= |run|
  {
    if k == 0 then Stepped(NOTHING, seen, None)
    else
      var p := After(run, seen, k - 1);
      Step(p.state, p.seen, run[k - 1])
  }

  predicate ProperRun(run: seq<Frame>) {
    && (forall k :: 0 <= k < |run| ==> Proper(run[k]))
    && (forall j, k :: 0 <= j <= k < |run| ==> run[j].now <= run[k].now)
  }

  /** The hint up finishes in frame `k`. */
  predicate FinishesAt(run: seq<Frame>, seen: set<nat>, k: nat)
    requires k < |run|
  {
    Finishes(After(run, seen, k).state, run[k])
  }

  lemma {:induction false} SeenOnlyGrows(run: seq<Frame>, seen: set<nat>, j: nat, k: nat)
    requires j <= k <= |run|
    ensures After(run, seen, j).seen <= After(run, seen, k).seen
  {
    hide Step;
    if j < k {
      SeenOnlyGrows(run, seen, j, k - 1);
      var p := After(run, seen, k - 1);
      StepGrowsSeen(p.state, p.seen, run[k - 1]);
    }
  }

  lemma {:induction false} UpIsUnseen(run: seq<Frame>, seen: set<nat>, k: nat)
    requires k <= |run| && ProperRun(run)
    ensures Unseen(After(run, seen, k).state, After(run, seen, k).seen)
  {
    hide Step, Unseen;
    if k == 0 {
      assert Unseen(NOTHING, seen) by {
        UnseenNothing(seen);
      }
    } else {
      UpIsUnseen(run, seen, k - 1);
      var p := After(run, seen, k - 1);
      StepKeepsUnseen(p.state, p.seen, run[k - 1]);
    }
  }

  lemma UnseenNothing(seen: set<nat>)
    ensures Unseen(NOTHING, seen)
  {
  }

  /** Main result: a hint shown in any frame of any run had not been seen in any frame up to then, and
      belongs where the pilot is. */
  lemma ShownIsNewAndFits(run: seq<Frame>, seen: set<nat>, j: nat, k: nat)
    requires j <= k < |run| && ProperRun(run)
    ensures var r := After(run, seen, k + 1).shown;
            r.Some? && HubIsOutside(run[k].i) ==> r.value.InPlace(run[k].i)
    ensures var r := After(run, seen, k + 1).shown;
            r.Some? ==> r.value.Bit() !in After(run, seen, j).seen && r.value.OnFoot() == run[k].i.walking
  {
    hide Step, Hint.Bit, Hint.InPlace, Hint.OnFoot;
    UpIsUnseen(run, seen, k);
    SeenOnlyGrows(run, seen, j, k + 1);
    var p := After(run, seen, k);
    StepKeepsUnseen(p.state, p.seen, run[k]);
    if HubIsOutside(run[k].i) {
      ShownFitsPlace(p.state, p.seen, run[k]);
    }
  }

  /** With nothing up and the next not due, a step shows nothing and leaves things so. */
  lemma QuietStep(s: State, seen: set<nat>, f: Frame)
    requires s.current == None && f.now < s.nextAt
    ensures var r := Step(s, seen, f); r.shown == None && r.state == s
  {
  }

  lemma {:induction false} QuietSince(run: seq<Frame>, seen: set<nat>, j: nat, k: nat)
    requires ProperRun(run) && j < k <= |run| && FinishesAt(run, seen, j) && run[k - 1].now < run[j].now + GAP
    ensures var r := After(run, seen, k);
            r.shown == None && r.state.current == None && r.state.nextAt == run[j].now + GAP
  {
    hide Step, Finishes, Unseen;
    var p := After(run, seen, k - 1);
    if j == k - 1 {
      UpIsUnseen(run, seen, j);
      StepFinishing(p.state, p.seen, run[j]);
    } else {
      assert run[k - 2].now <= run[k - 1].now;
      QuietSince(run, seen, j, k - 1);
      QuietStep(p.state, p.seen, run[k - 1]);
    }
  }

  /** Main result: nothing is shown for two seconds after a hint is done with, its own frame included. */
  lemma QuietAfterFinish(run: seq<Frame>, seen: set<nat>, j: nat, k: nat)
    requires ProperRun(run) && j <= k < |run| && FinishesAt(run, seen, j) && run[k].now < run[j].now + 2.0
    ensures After(run, seen, k + 1).shown == None
  {
    QuietSince(run, seen, j, k + 1);
  }

  /** And two seconds after it, in the first frame then in which hints go on, the first that is eligible is. */
  lemma NextAfterGap(run: seq<Frame>, seen: set<nat>, j: nat, k: nat)
    requires ProperRun(run) && j < k < |run| && FinishesAt(run, seen, j)
    requires run[k - 1].now < run[j].now + 2.0 <= run[k].now && Live(run[k])
    ensures After(run, seen, k + 1).shown == FirstFrom(0, Marked(After(run, seen, k).seen, run[k].i), run[k].i)
  {
    QuietSince(run, seen, j, k);
    var p := After(run, seen, k);
    ShowsFirst(p.state, p.seen, run[k]);
  }

  lemma ShowsFirst(s: State, seen: set<nat>, f: Frame)
    requires s.current == None && s.nextAt <= f.now && Live(f)
    ensures Step(s, seen, f).shown == FirstFrom(0, Marked(seen, f.i), f.i)
  {
    hide FirstFrom, Marked;
  }

  /** From the start the first that is eligible is shown at once. */
  lemma FirstAtOnce(seen: set<nat>, f: Frame)
    requires f.now >= 0.0 && Live(f)
    ensures Step(NOTHING, seen, f).shown == FirstFrom(0, Marked(seen, f.i), f.i)
  {
    hide FirstFrom, Marked;
    ShowsFirst(NOTHING, seen, f);
  }

  /** `h`, picked in frame `j`, is the hint up after each frame since, up to the `k`th. */
  predicate UpSince(run: seq<Frame>, seen: set<nat>, h: Hint, j: nat, k: nat)
    requires j < k <= |run|
  {
    && After(run, seen, j + 1).state.doing == 0.0 && !After(run, seen, j + 1).state.hopped
    && forall i :: j < i <= k ==> After(run, seen, i).state.current == Some((h, run[j].now))
  }

  /** A frame in which hints go on. */
  predicate Live(f: Frame) {
    f.i.flying || f.i.walking
  }

  /** For how long the pilot has done what `h` says since frame `j`, up to the `k`th. */
  function ActedFor(run: seq<Frame>, h: Hint, j: nat, k: nat): real
    requires j < k <= |run|
  {
    if k == j + 1 then 0.0
    else ActedFor(run, h, j, k - 1) + (if Live(run[k - 1]) && h.Acting(run[k - 1].i) then run[k - 1].dt else 0.0)
  }

  predicate HoppedSince(run: seq<Frame>, j: nat, k: nat)
    requires j < k <= |run|
  {
    exists i :: j < i < k && Live(run[i]) && run[i].i.hopped
  }

  /** What is counted while a hint is up is the time its action has gone on, and whether the pilot hopped. */
  lemma {:induction false} CountsTheDoing(run: seq<Frame>, seen: set<nat>, h: Hint, j: nat, k: nat)
    requires j < k <= |run| && UpSince(run, seen, h, j, k)
    requires forall i :: j < i < k ==> run[j].now < run[i].now
    ensures After(run, seen, k).state.doing == ActedFor(run, h, j, k)
    ensures After(run, seen, k).state.hopped <==> HoppedSince(run, j, k)
  {
    hide Step, Hint.Acting, Live;
    if k > j + 1 {
      CountsTheDoing(run, seen, h, j, k - 1);
      var p := After(run, seen, k - 1);
      assert After(run, seen, k) == Step(p.state, p.seen, run[k - 1]);
      assert After(run, seen, k).state.current == p.state.current == Some((h, run[j].now));
      StaysUp(p.state, p.seen, run[k - 1], h, run[j].now);
    }
  }

  lemma StaysUp(s: State, seen: set<nat>, f: Frame, h: Hint, since: real)
    requires s.current == Some((h, since)) && Step(s, seen, f).state.current == Some((h, since)) && since < f.now
    ensures var r := Step(s, seen, f).state;
            && r.doing == s.doing + (if Live(f) && h.Acting(f.i) then f.dt else 0.0)
            && (r.hopped <==> s.hopped || (Live(f) && f.i.hopped))
  {
    hide ALL, FirstFrom, Hint.Due, Hint.Acting, Hint.InPlace, Hint.MaxSecs, Hint.OnFoot, Hint.Bit, Hint.AtOnce, Done;
  }

  /** Main result: a hint up and in its place is done with in frame `k` exactly when it has been up too long, or the
      pilot has done what it says for a second since it came up, a hop besides for the surface's, or has done it at
      all where that is enough. */
  lemma FinishesIff(run: seq<Frame>, seen: set<nat>, h: Hint, j: nat, k: nat)
    requires j < k < |run| && UpSince(run, seen, h, j, k) && Live(run[k])
    requires forall i :: j < i <= k ==> run[j].now < run[i].now
    requires h.OnFoot() == run[k].i.walking && h.InPlace(run[k].i)
    ensures FinishesAt(run, seen, k)
       <==> || run[k].now - run[j].now > h.MaxSecs()
            || (ActedFor(run, h, j, k + 1) >= 1.0 && (h == Surface ==> HoppedSince(run, j, k + 1)))
            || (h.Acting(run[k].i) && h.AtOnce())
  {
    hide Step, Hint.Acting, Hint.InPlace, Hint.MaxSecs, Hint.OnFoot;
    CountsTheDoing(run, seen, h, j, k);
    assert HoppedSince(run, j, k + 1) <==> HoppedSince(run, j, k) || run[k].i.hopped;
  }

  /** How many hints finish in the first `k` frames. */
  function Finished(run: seq<Frame>, seen: set<nat>, k: nat): nat
    requires k <= |run|
  {
    if k == 0 then 0 else Finished(run, seen, k - 1) + (if FinishesAt(run, seen, k - 1) then 1 else 0)
  }

  /** The hints not in a seen set, by bit. */
  function UnseenBits(seen: set<nat>): set<nat> {
    (set h | h in ALL :: h.Bit()) - seen
  }

  lemma StepSpendsUnseen(s: State, seen: set<nat>, f: Frame)
    requires Proper(f) && Unseen(s, seen)
    ensures |UnseenBits(Step(s, seen, f).seen)| + (if Finishes(s, f) then 1 else 0) <= |UnseenBits(seen)|
  {
    StepGrowsSeen(s, seen, f);
    var before, after := UnseenBits(seen), UnseenBits(Step(s, seen, f).seen);
    assert after <= before;
    if Finishes(s, f) {
      StepFinishing(s, seen, f);
      var b := s.current.value.0.Bit();
      Listed(s.current.value.0);
      assert s.current.value.0 in ALL;
      hide Step, Hint.Bit, Finishes, ALL;
      assert b in before && b !in after;
      SubsetSize(after, before - {b});
    } else {
      SubsetSize(after, before);
    }
  }

  /** Main result: no run finishes more hints than it started with unseen. */
  lemma {:induction false} FinishedBounded(run: seq<Frame>, seen: set<nat>, k: nat)
    requires k <= |run| && ProperRun(run)
    ensures Finished(run, seen, k) + |UnseenBits(After(run, seen, k).seen)| <= |UnseenBits(seen)|
  {
    hide Step, Unseen, Finishes, UnseenBits;
    if k > 0 {
      FinishedBounded(run, seen, k - 1);
      UpIsUnseen(run, seen, k - 1);
      var p := After(run, seen, k - 1);
      StepSpendsUnseen(p.state, p.seen, run[k - 1]);
    }
  }

  predicate NoAirlock(s: State, seen: set<nat>) {
    LAUNCHED !in seen && (s.current.Some? ==> s.current.value.0 != Airlock)
  }

  lemma StepNoAirlock(s: State, seen: set<nat>, f: Frame)
    requires NoAirlock(s, seen) && !f.i.colony && !f.i.boarding
    ensures var r := Step(s, seen, f); NoAirlock(r.state, r.seen) && r.shown != Some(Airlock)
  {
    var marked := Marked(seen, f.i);
    BitsDistinct(Airlock, Airlock);
    FirstIsFirst(0, marked, f.i);
    if Staying(s, f.i).Some? {
      var h := s.current.value.0;
      BitsDistinct(h, h);
      FirstIsFirst(0, marked + {h.Bit()}, f.i);
    }
    hide ALL, FirstFrom, Hint.Due, Hint.Acting, Hint.InPlace, Hint.MaxSecs, Hint.OnFoot, Hint.Bit, Hint.AtOnce,
         Finishes;
  }

  /** Main result: with the colony closed, the airlock's hint never comes before the first boarding. */
  lemma {:induction false} AirlockWaits(run: seq<Frame>, seen: set<nat>, k: nat)
    requires k <= |run| && LAUNCHED !in seen
    requires forall j :: 0 <= j < k ==> !run[j].i.colony && !run[j].i.boarding
    ensures NoAirlock(After(run, seen, k).state, After(run, seen, k).seen)
    ensures After(run, seen, k).shown != Some(Airlock)
  {
    hide Step;
    if k > 0 {
      AirlockWaits(run, seen, k - 1);
      var p := After(run, seen, k - 1);
      StepNoAirlock(p.state, p.seen, run[k - 1]);
    }
  }
}
