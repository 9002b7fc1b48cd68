/** Server-time estimation, input lead and the eased clocks drawn from them. Times are in seconds,
    clocks in ticks; arithmetic is over the reals. */
module Clock {
  import opened Wrappers
  import opened Exponential
  import opened Springs

  const HZ: real := 30.0
  const TARGET_HEALTH: real := 2.0
  const HEALTH_WINDOW: nat := 30
  const FAR: real := 6.0
  const LATE_RUN: nat := 15
  const LATE_STEP: real := 0.05
  const EASE: real := 2.5
  const EASE_SNAP: real := 4.0

  function Max(a: real, b: real): real {
    if a > b then a else b
  }

  function Abs(a: real): real {
    if a < 0.0 then -a else a
  }

  function Clamp(x: real, lo: real, hi: real): real
    requires lo <= hi
  {
    if x < lo then lo else if x > hi then hi else x
  }

  // ---- The eased offset ----

  datatype Ease = Ease(to: real, gap: real, pace: real, since: real, aimed: bool) {

    /** The gap and its rate of change at `now`. */
    function State(e: real -> real, now: real): (real, real) {
      After(e, Max(now - since, 0.0))
    }

    /** The same, `t` seconds after it was aimed. */
    function After(e: real -> real, t: real): (real, real) {
      Step(e, EASE, gap, pace, t)
    }

    function At(e: real -> real, now: real): real {
      to + State(e, now).0
    }

    /** Its rate against real time. */
    function Rate(e: real -> real, now: real): real {
      1.0 + State(e, now).1 / HZ
    }

    function Aim(e: real -> real, now: real, target: real): Ease {
      var (g, p) := State(e, now);
      var here := to + g;
      if !aimed || Abs(target - here) > EASE_SNAP
      then Ease(target, 0.0, 0.0, now, true)
      else Ease(target, here - target, p, now, true)
    }
  }

  const UNAIMED: Ease := Ease(0.0, 0.0, 0.0, 0.0, false)

  /** Just aimed, it is at its gap and pace. */
  lemma StateAtAim(e: real -> real, x: Ease)
    requires IsExp(e)
    ensures x.State(e, x.since) == (x.gap, x.pace)
  {
    StepStart(e, EASE, x.gap, x.pace);
  }

  /** Aiming elsewhere moves the drawn value at that instant exactly when it jumps: unless it was
      already there, it carries on exactly when it was aimed before and the new target is within the
      snap distance. */
  lemma AimCarriesOnIff(e: real -> real, x: Ease, now: real, target: real)
    requires IsExp(e)
    ensures x.Aim(e, now, target).At(e, now) == x.At(e, now)
       <==> (x.aimed && Abs(target - x.At(e, now)) <= EASE_SNAP) || target == x.At(e, now)
    ensures x.aimed && Abs(target - x.At(e, now)) <= EASE_SNAP ==>
              x.Aim(e, now, target).Rate(e, now) == x.Rate(e, now)
  {
    StateAtAim(e, x.Aim(e, now, target));
  }

  /** Aimed again at the same target, it goes on exactly as it would have, at every later time,
      precisely when it has not strayed past the snap distance. */
  lemma ReaimSameTargetIff(e: real -> real, x: Ease, now: real)
    requires IsExp(e) && x.aimed && x.since <= now
    ensures (forall later :: later >= now ==> SameState(e, x.Aim(e, now, x.to), x, later))
       <==> Abs(x.State(e, now).0) <= EASE_SNAP
  {
    var (g, p) := x.State(e, now);
    var y := x.Aim(e, now, x.to);
    if Abs(g) <= EASE_SNAP {
      forall later | later >= now
        ensures SameState(e, y, x, later)
      {
        GoesOn(e, x, now, later);
      }
    } else {
      StateAtAim(e, y);
      assert !SameState(e, y, x, now);
    }
  }

  lemma GoesOn(e: real -> real, x: Ease, now: real, later: real)
    requires IsExp(e) && x.aimed && x.since <= now <= later && Abs(x.State(e, now).0) <= EASE_SNAP
    ensures SameState(e, x.Aim(e, now, x.to), x, later)
  {
    hide IsExp;
    var t, s := now - x.since, later - now;
    StateIs(e, x, t);
    StateIs(e, x, t + s);
    assert x.since + t == now && x.since + (t + s) == later;
    assert x.State(e, now) == x.After(e, t) && x.State(e, later) == x.After(e, t + s);
    var y := x.Aim(e, now, x.to);
    assert y == Ease(x.to, x.After(e, t).0, x.After(e, t).1, now, true);
    StateIs(e, y, s);
    assert y.since + s == later;
    Flow(e, EASE, x.gap, x.pace, t, s);
  }

  lemma StateIs(e: real -> real, x: Ease, t: real)
    requires t >= 0.0
    ensures x.State(e, x.since + t) == x.After(e, t)
  {
    assert Max(x.since + t - x.since, 0.0) == t;
  }

  ghost predicate SameState(e: real -> real, x: Ease, y: Ease, now: real) {
    x.State(e, now) == y.State(e, now) && x.to == y.to
  }

  /** At rest the snap distance short of its target, then a tenth of a second later sent back to that distance
      behind where it is by then, an offset still moves out, past the distance. Aimed then at the target it
      has, it jumps. */
  lemma SentBackPasses(e: real -> real, out: Ease, x: Ease)
    requires IsExp(e) && AboveTangent(e) && out == Ease(out.to, -EASE_SNAP, 0.0, out.since, true)
    requires x == out.Aim(e, out.since + 0.1, out.At(e, out.since + 0.1) - EASE_SNAP)
    ensures var now := out.since + 0.12;
            && x.State(e, now).0 > EASE_SNAP
            && !(forall later :: later >= now ==> SameState(e, x.Aim(e, now, x.to), x, later))
  {
    StateIs(e, out, 0.1);
    var (g, p) := out.After(e, 0.1);
    assert p >= 1.875 by {
      assert -EASE * 0.1 == -0.25;
      MovingOut(e(-0.25), p);
    }
    assert x == Ease(out.to + g - EASE_SNAP, EASE_SNAP, p, out.since + 0.1, true);
    StateIs(e, x, 0.02);
    var now := out.since + 0.12;
    assert x.since + 0.02 == now;
    assert x.State(e, now).0 > EASE_SNAP by {
      assert -EASE * 0.02 == -0.05;
      GoingPast(e(-0.05), p, x.State(e, now).0);
    }
    ReaimSameTargetIff(e, x, now);
  }

  lemma MovingOut(left: real, p: real)
    requires left >= 0.75 && p == 2.5 * left
    ensures p >= 1.875
  {
  }

  lemma GoingPast(left: real, p: real, g: real)
    requires left >= 0.95 && p >= 1.875 && g == (4.0 + (p + 10.0) * 0.02) * left
    ensures g > 4.0
  {
    Scale(4.0 + (p + 10.0) * 0.02, 0.95, left);
  }

  /** From rest the gap closes without overshooting: it keeps its sign and never exceeds its start. */
  lemma NoOvershoot(e: real -> real, x: Ease, now: real)
    requires IsExp(e) && AboveTangent(e) && x.pace == 0.0
    ensures var g := x.State(e, now).0;
            && (x.gap >= 0.0 ==> 0.0 <= g <= x.gap)
            && (x.gap <= 0.0 ==> x.gap <= g <= 0.0)
  {
    var t := Max(now - x.since, 0.0);
    var w := EASE * t;
    Inverse(e, w);
    var down := e(-w);
    assert down > 0.0;
    hide IsExp;
    var k := (1.0 + w) * down;
    assert e(w) >= 1.0 + w;
    RestFactor(w, down, e(w), k);
    assert x.State(e, now).0 == x.gap * k by {
      assert -EASE * t == -w;
      RestGap(x.gap, t, down);
    }
    ScaledBetween(x.gap, k, x.State(e, now).0);
  }

  lemma RestGap(g: real, t: real, down: real)
    ensures (g + (0.0 + g * EASE) * t) * down == g * ((1.0 + EASE * t) * down)
  {
    assert g + (0.0 + g * EASE) * t == g * (1.0 + EASE * t);
  }

  lemma Scale(k: real, a: real, b: real)
    requires k >= 0.0 && a <= b
    ensures a * k <= b * k
  {
  }

  lemma RestFactor(w: real, down: real, up: real, k: real)
    requires w >= 0.0 && down > 0.0 && up >= 1.0 + w && down * up == 1.0 && k == (1.0 + w) * down
    ensures 0.0 <= k <= 1.0
  {
    Scale(down, 1.0 + w, up);
    Scale(down, 0.0, 1.0 + w);
  }

  lemma ScaledBetween(g: real, k: real, r: real)
    requires 0.0 <= k <= 1.0 && r == g * k
    ensures g >= 0.0 ==> 0.0 <= r <= g
    ensures g <= 0.0 ==> g <= r <= 0.0
  {
  }

  // ---- One snapshot ----

  datatype Snapshot = Snapshot(tick: nat, recvNow: real, rtt: Option<real>, health: int)

  datatype State = State(
    offset: Option<real>,
    rtt: real,
    lead: real,
    interpDelay: real,
    health: int,
    recent: seq<int>,
    recentN: nat,
    lateRun: nat,
    own: Ease,
    view: Ease)

  function NextRtt(s: State, snap: Snapshot): real {
    if snap.rtt.Some? && 0.0 <= snap.rtt.value < 5.0
    then (if s.offset.None? then snap.rtt.value else s.rtt * 0.9 + snap.rtt.value * 0.1)
    else s.rtt
  }

  /** Where a snapshot puts the server's clock. */
  function Sample(s: State, snap: Snapshot): real {
    snap.tick as real + NextRtt(s, snap) * 0.5 * HZ - snap.recvNow * HZ
  }

  function FarLate(offset: Option<real>, sample: real): bool {
    offset.Some? && offset.value - sample > FAR
  }

  /** The estimate and the run of far-late snapshots after one sample. */
  function Track(offset: Option<real>, lateRun: nat, sample: real): (real, nat) {
    var run := if FarLate(offset, sample) then lateRun + 1 else 0;
    match offset
    case None => (sample, run)
    case Some(o) =>
      if sample - o > FAR then (sample, run)
      else if run >= LATE_RUN then (sample, 0)
      else if sample > o then (o + 0.1 * (sample - o), run)
      else (o + Max(0.02 * (sample - o), -LATE_STEP), run)
  }

  function MinOf(s: seq<int>): (m: int)
    requires s != []
    ensures m in s && forall x :: x in s ==> m <= x
  {
    if |s| == 1 then s[0]
    else
      var m := MinOf(s[..|s| - 1]);
      assert s == s[..|s| - 1] + [s[|s| - 1]];
      if s[|s| - 1] < m then s[|s| - 1] else m
  }

  function Held(n: nat): nat {
    if n < HEALTH_WINDOW then n else HEALTH_WINDOW
  }

  /** The lead before it is clamped. */
  function Steered(lead: real, health: int, lowest: int): real {
    if health as real < TARGET_HEALTH then lead + 0.1 * (TARGET_HEALTH - health as real)
    else if lowest as real > TARGET_HEALTH then lead - 0.02 * (lowest as real - TARGET_HEALTH)
    else lead
  }

  function Base(rtt: real): real {
    rtt * 0.5 * HZ
  }

  function OnSnapshotSpec(e: real -> real, s: State, snap: Snapshot): State
    requires |s.recent| == HEALTH_WINDOW
  {
    var rtt := NextRtt(s, snap);
    var (offset, lateRun) := Track(s.offset, s.lateRun, Sample(s, snap));
    var recent := s.recent[s.recentN % HEALTH_WINDOW := snap.health];
    var n := s.recentN + 1;
    var lowest := MinOf(recent[..Held(n)]);
    var lead := Clamp(Steered(s.lead, snap.health, lowest), Base(rtt) + 0.5, Base(rtt) + 45.0);
    var delay := Clamp(2.0 + rtt * HZ * 0.25, 2.0, 6.0);
    State(Some(offset), rtt, lead, delay, snap.health, recent, n, lateRun,
          s.own.Aim(e, snap.recvNow, offset + lead), s.view.Aim(e, snap.recvNow, offset - delay))
  }

  class Clock {
    const e: real -> real
    var offset: Option<real>
    var rtt: real
    var lead: real
    var interpDelay: real
    var health: int
    const recent: array<int>
    var recentN: nat
    var lateRun: nat
    var own: Ease
    var view: Ease

    ghost predicate Valid()
      reads this
    {
      recent.Length == HEALTH_WINDOW
    }

    ghost function Abstract(): State
      reads this, recent
    {
      State(offset, rtt, lead, interpDelay, health, recent[..], recentN, lateRun, own, view)
    }

    constructor (e: real -> real)
      ensures Valid() && this.e == e && fresh(recent) && Abstract() == Initial()
    {
      this.e := e;
      offset, rtt, lead, interpDelay, health := None, 0.1, 4.0, 3.0, 0;
      recent := new int[HEALTH_WINDOW](_ => 0);
      recentN, lateRun, own, view := 0, 0, UNAIMED, UNAIMED;
      new;
      assert recent[..] == seq(HEALTH_WINDOW, _ => 0);
    }

    method OnSnapshot(tick: nat, recvNow: real, rttSample: Option<real>, depth: int)
      requires Valid()
      modifies this, recent
      ensures Valid()
      ensures Abstract() == OnSnapshotSpec(e, old(Abstract()), Snapshot(tick, recvNow, rttSample, depth))
    {
      hide Ease.Aim, MinOf, Track, Clamp, Steered, Base;
      ghost var s, snap := Abstract(), Snapshot(tick, recvNow, rttSample, depth);
      if rttSample.Some? && 0.0 <= rttSample.value < 5.0 {
        rtt := if offset.None? then rttSample.value else rtt * 0.9 + rttSample.value * 0.1;
      }
      var sample := tick as real + rtt * 0.5 * HZ - recvNow * HZ;
      assert rtt == NextRtt(s, snap) && sample == Sample(s, snap);
      hide NextRtt, Sample;
      FollowSample(sample);
      var lowest := KeepDepth(depth);
      Steer(depth, lowest);
      interpDelay := Clamp(2.0 + rtt * HZ * 0.25, 2.0, 6.0);
      own := own.Aim(e, recvNow, offset.value + lead);
      view := view.Aim(e, recvNow, offset.value - interpDelay);
    }

    /** Lengthens the lead at once when input runs dry, shortens it slowly when it is spare. */
    method Steer(depth: int, lowest: int)
      modifies this`lead
      ensures lead == Clamp(Steered(old(lead), depth, lowest), Base(rtt) + 0.5, Base(rtt) + 45.0)
    {
      if depth as real < TARGET_HEALTH {
        lead := lead + 0.1 * (TARGET_HEALTH - depth as real);
      } else if lowest as real > TARGET_HEALTH {
        lead := lead - 0.02 * (lowest as real - TARGET_HEALTH);
      }
      var base := rtt * 0.5 * HZ;
      lead := Clamp(lead, base + 0.5, base + 45.0);
    }

    /** Moves the estimate toward a sample, or onto it. */
    method FollowSample(sample: real)
      modifies this`offset, this`lateRun
      ensures offset.Some? && (offset.value, lateRun) == Track(old(offset), old(lateRun), sample)
    {
      var farLate := offset.Some? && offset.value - sample > FAR;
      lateRun := if farLate then lateRun + 1 else 0;
      match offset {
        case None =>
          offset := Some(sample);
        case Some(o) =>
          if sample - o > FAR {
            offset := Some(sample);
          } else if lateRun >= LATE_RUN {
            lateRun := 0;
            offset := Some(sample);
          } else if sample > o {
            offset := Some(o + 0.1 * (sample - o));
          } else {
            offset := Some(o + Max(0.02 * (sample - o), -LATE_STEP));
          }
      }
    }

    /** Puts a depth in the ring; the lowest it now holds. */
    method KeepDepth(depth: int) returns (lowest: int)
      requires Valid()
      modifies this`health, this`recentN, recent
      ensures health == depth && recentN == old(recentN) + 1
      ensures recent[..] == old(recent[..])[old(recentN) % HEALTH_WINDOW := depth]
      ensures lowest == MinOf(recent[..][..Held(recentN)])
    {
      health := depth;
      recent[recentN % HEALTH_WINDOW] := depth;
      recentN := recentN + 1;
      lowest := Lowest();
      assert recent[..Held(recentN)] == recent[..][..Held(recentN)];
    }

    method Lowest() returns (m: int)
      requires Valid() && recentN > 0
      ensures m == MinOf(recent[..Held(recentN)])
    {
      m := recent[0];
      for k := 1 to Held(recentN)
        invariant m == MinOf(recent[..k])
      {
        assert recent[..k + 1][..k] == recent[..k];
        if recent[k] < m {
          m := recent[k];
        }
      }
    }
  }

  function Initial(): State {
    State(None, 0.1, 4.0, 3.0, 0, seq(HEALTH_WINDOW, _ => 0), 0, 0, UNAIMED, UNAIMED)
  }

  // ---- Runs ----

  /** The clock after the first `k` snapshots of a run. */
  function After(e: real -> real, run: seq<Snapshot>, k: nat): (s: State)
    requires k <= |run|
    ensures |s.recent| == HEALTH_WINDOW && s.recentN == k && (s.offset.Some? <==> k > 0)
  {
    if k == 0 then Initial() else OnSnapshotSpec(e, After(e, run, k - 1), run[k - 1])
  }

  /** The ranges every estimate keeps, over every run. */
  lemma {:induction false} RangesKept(e: real -> real, run: seq<Snapshot>, k: nat)
    requires k <= |run|
    ensures var s := After(e, run, k);
            && 0.0 <= s.rtt < 5.0 && s.lateRun < LATE_RUN && 2.0 <= s.interpDelay <= 6.0
            && (k > 0 ==> 15.0 * s.rtt + 0.5 <= s.lead <= 15.0 * s.rtt + 45.0)
  {
    hide Sample, MinOf, Ease.Aim, Steered;
    if k > 0 {
      RangesKept(e, run, k - 1);
    }
  }

  /** Each estimate lands between the old one and the sample. */
  lemma EstimateBetween(offset: real, lateRun: nat, sample: real)
    ensures var o := Track(Some(offset), lateRun, sample).0;
            (offset <= o <= sample) || (sample <= o <= offset)
  {
  }

  function SampleAt(e: real -> real, run: seq<Snapshot>, i: nat): real
    requires i < |run|
  {
    Sample(After(e, run, i), run[i])
  }

  /** Snapshot `i` of the run was far late when it arrived. */
  predicate LateAt(e: real -> real, run: seq<Snapshot>, i: nat)
    requires i < |run|
  {
    FarLate(After(e, run, i).offset, SampleAt(e, run, i))
  }

  /** How far snapshot `i` moved the estimate back. */
  function MovedBack(e: real -> real, run: seq<Snapshot>, i: nat): real
    requires 0 < i < |run|
  {
    After(e, run, i).offset.value - After(e, run, i + 1).offset.value
  }

  /** The estimate after `k` snapshots, and its run of far-late ones. */
  function Estimate(e: real -> real, run: seq<Snapshot>, k: nat): (Option<real>, nat)
    requires k <= |run|
  {
    (After(e, run, k).offset, After(e, run, k).lateRun)
  }

  /** `Track` on such a pair. */
  function Tracked(at: (Option<real>, nat), sample: real): (Option<real>, nat) {
    var t := Track(at.0, at.1, sample);
    (Some(t.0), t.1)
  }

  lemma StepTracks(e: real -> real, run: seq<Snapshot>, k: nat)
    requires k < |run|
    ensures Estimate(e, run, k + 1) == Tracked(Estimate(e, run, k), SampleAt(e, run, k))
  {
    hide Track, Sample, MinOf, Ease.Aim;
  }

  lemma StepKeepsDepth(e: real -> real, run: seq<Snapshot>, k: nat)
    requires k < |run|
    ensures After(e, run, k + 1).recent == After(e, run, k).recent[k % HEALTH_WINDOW := run[k].health]
  {
    hide Track, Sample, MinOf, Ease.Aim;
  }

  /** Snapshot `i` was far late and hardly moved the estimate. */
  predicate LateStep(e: real -> real, run: seq<Snapshot>, i: int) {
    0 < i < |run| && LateAt(e, run, i) && MovedBack(e, run, i) <= LATE_STEP
  }

  lemma EstimateStart(e: real -> real, run: seq<Snapshot>)
    ensures Estimate(e, run, 0) == (None, 0)
  {
  }

  /** One far-late snapshot adds to the run and hardly moves the estimate; any other ends the run. */
  lemma LateFacts(e: real -> real, run: seq<Snapshot>, k: nat)
    requires k < |run|
    ensures var r, r' := Estimate(e, run, k).1, Estimate(e, run, k + 1).1;
            r' == 0 || (r' == r + 1 && r' < LATE_RUN && LateStep(e, run, k))
  {
    StepTracks(e, run, k);
    assert k == 0 ==> After(e, run, k).offset.None?;
    hide After, SampleAt;
  }

  /** The late run counts the far-late snapshots just past, none of which moved the estimate far. */
  lemma {:induction false} LateRunCounts(e: real -> real, run: seq<Snapshot>, k: nat)
    requires k <= |run|
    ensures var c := Estimate(e, run, k).1;
            c < LATE_RUN && forall i :: k - c <= i < k ==> LateStep(e, run, i)
  {
    hide Estimate, LateStep;
    if k == 0 {
      EstimateStart(e, run);
    } else {
      LateRunCounts(e, run, k - 1);
      LateFacts(e, run, k - 1);
    }
  }

  /** Main result: the estimate moves back by more than `LATE_STEP` only on the fifteenth of fifteen
      consecutive far-late snapshots, the fourteen before having barely moved it; and then it is put
      on the sample. */
  lemma MovesBackOnFifteenth(e: real -> real, run: seq<Snapshot>, k: nat)
    requires 0 < k < |run|
    ensures MovedBack(e, run, k) > LATE_STEP ==>
              && LateAt(e, run, k) && Estimate(e, run, k + 1) == (Some(SampleAt(e, run, k)), 0)
              && forall i :: k - (LATE_RUN - 1) <= i < k ==> LateStep(e, run, i)
  {
    LateRunCounts(e, run, k);
    StepTracks(e, run, k);
    hide After, SampleAt, LateStep;
    if MovedBack(e, run, k) > LATE_STEP {
      assert Estimate(e, run, k).1 == LATE_RUN - 1;
    }
  }

  /** The estimate after `n` samples all equal to `sample`. */
  function TrackSame(at: (Option<real>, nat), sample: real, n: nat): (Option<real>, nat) {
    if n == 0 then at else Tracked(TrackSame(at, sample, n - 1), sample)
  }

  predicate Near(offset: Option<real>, sample: real) {
    offset.Some? && Abs(offset.value - sample) <= FAR
  }

  lemma {:induction false} NearOrLater(at: (Option<real>, nat), sample: real, n: nat)
    requires n > 0
    ensures var (o, run) := TrackSame(at, sample, n);
            Near(o, sample) || (run == at.1 + n && run < LATE_RUN)
  {
    if n > 1 {
      NearOrLater(at, sample, n - 1);
    }
  }

  /** Main result: fifteen equal samples bring the estimate within `FAR` of them, from any state. */
  lemma FifteenSamplesSettle(at: (Option<real>, nat), sample: real)
    ensures Near(TrackSame(at, sample, LATE_RUN).0, sample)
  {
    NearOrLater(at, sample, LATE_RUN);
  }

  /** In a run, snapshots whose samples agree track as equal samples do. */
  lemma {:induction false} RunTracksSame(e: real -> real, run: seq<Snapshot>, from: nat, n: nat, sample: real)
    requires from + n <= |run| && forall i :: from <= i < from + n ==> SampleAt(e, run, i) == sample
    ensures Estimate(e, run, from + n) == TrackSame(Estimate(e, run, from), sample, n)
  {
    hide SampleAt, Tracked, Estimate;
    if n > 0 {
      RunTracksSame(e, run, from, n - 1, sample);
      StepTracks(e, run, from + n - 1);
      assert SampleAt(e, run, from + n - 1) == sample;
    }
  }

  lemma RunSettles(e: real -> real, run: seq<Snapshot>, from: nat, sample: real)
    requires from + LATE_RUN <= |run|
    requires forall i :: from <= i < from + LATE_RUN ==> SampleAt(e, run, i) == sample
    ensures Near(After(e, run, from + LATE_RUN).offset, sample)
  {
    RunTracksSame(e, run, from, LATE_RUN, sample);
    hide After, SampleAt, TrackSame;
    FifteenSamplesSettle(Estimate(e, run, from), sample);
  }

  // ---- How the estimate approaches ----

  /** The law of approach: an early sample at most `FAR` ahead leaves nine tenths of the gap; a late one, unless it
      is the fifteenth far-late, ninety-eight hundredths of it or all but a twentieth of a tick, whichever is more;
      the first of all, one further ahead, and the fifteenth far-late leave none. */
  lemma ApproachLaw(o: real, lateRun: nat, sample: real)
    ensures var r := Track(Some(o), lateRun, sample);
            && (sample > o + 6.0 ==> r.0 == sample)
            && (o < sample <= o + 6.0 ==> sample - r.0 == 0.9 * (sample - o))
            && (sample <= o && !(o > sample + 6.0 && lateRun >= 14) ==>
                  r.0 - sample == Max(0.98 * (o - sample), o - sample - 0.05))
            && (o > sample + 6.0 && lateRun >= 14 ==> r.0 == sample)
            && (r.1 == if o > sample + 6.0 && lateRun < 14 then lateRun + 1 else 0)
    ensures Track(None, lateRun, sample) == (sample, 0)
  {
  }

  function Power(x: real, n: nat): real {
    if n == 0 then 1.0 else x * Power(x, n - 1)
  }

  lemma {:induction false} PowerAtMostOne(n: nat)
    ensures 0.0 < Power(0.9, n) <= 1.0
  {
    if n > 0 {
      PowerAtMostOne(n - 1);
    }
  }

  /** So `n` equal samples at most `FAR` ahead leave `0.9` to the `n` of the gap. */
  lemma {:induction false} SamplesAhead(o: real, lateRun: nat, sample: real, n: nat)
    requires o < sample <= o + FAR
    ensures var r := TrackSame((Some(o), lateRun), sample, n);
            r.0.Some? && sample - r.0.value == Power(0.9, n) * (sample - o)
  {
    hide Track, FAR;
    if n > 0 {
      SamplesAhead(o, lateRun, sample, n - 1);
      var r := TrackSame((Some(o), lateRun), sample, n - 1);
      PowerAtMostOne(n - 1);
      GapShrinks(Power(0.9, n - 1), sample - o, sample - r.0.value);
      ApproachLaw(r.0.value, r.1, sample);
      TenthOff(Power(0.9, n - 1), sample - o);
    }
  }

  lemma GapShrinks(p: real, gap: real, left: real)
    requires 0.0 < p <= 1.0 && 0.0 < gap <= FAR && left == p * gap
    ensures 0.0 < left <= 6.0
  {
    Products(gap, p, 1.0, left, gap);
  }

  lemma TenthOff(p: real, gap: real)
    ensures (0.9 * p) * gap == 0.9 * (p * gap)
  {
  }

  /** In a run, too: while samples agree, ahead of the estimate by at most `FAR`, each takes a tenth of what is left. */
  lemma RunApproaches(e: real -> real, run: seq<Snapshot>, from: nat, n: nat, sample: real)
    requires 0 < from && from + n <= |run|
    requires forall i :: from <= i < from + n ==> SampleAt(e, run, i) == sample
    requires After(e, run, from).offset.value < sample <= After(e, run, from).offset.value + FAR
    ensures sample - After(e, run, from + n).offset.value
         == Power(0.9, n) * (sample - After(e, run, from).offset.value)
  {
    hide After, SampleAt, TrackSame, Power, Tracked;
    RunTracksSame(e, run, from, n, sample);
    var at := Estimate(e, run, from);
    SamplesAhead(at.0.value, at.1, sample, n);
  }

  /** A round trip measured between 0 and 5 seconds is taken whole before the first snapshot and leaves nine tenths of
      the gap to it after; any other measure, or none, changes nothing. */
  lemma RoundTripApproach(s: State, snap: Snapshot)
    ensures var r := NextRtt(s, snap);
            if snap.rtt.Some? && 0.0 <= snap.rtt.value < 5.0
            then (if s.offset.None? then r == snap.rtt.value else snap.rtt.value - r == 0.9 * (snap.rtt.value - s.rtt))
            else r == s.rtt
  {
  }

  /** A server whose clock reads `begun` and thirty ticks a second at the page's time 0, heard of half a round trip
      of `rtt` seconds after each snapshot leaves it. */
  predicate Steady(run: seq<Snapshot>, begun: real, rtt: real) {
    forall i :: 0 <= i < |run| ==>
      && run[i].rtt == Some(rtt)
      && run[i].tick as real == begun + 30.0 * (run[i].recvNow - rtt / 2.0)
  }

  /** Main result: over a steady network the estimate is the server's clock, exactly, from the first snapshot on. */
  lemma {:induction false} SteadyIsExact(e: real -> real, run: seq<Snapshot>, begun: real, rtt: real, k: nat)
    requires 0 < k <= |run| && Steady(run, begun, rtt) && 0.0 <= rtt < 5.0
    ensures After(e, run, k).offset == Some(begun) && After(e, run, k).rtt == rtt
  {
    hide OnSnapshotSpec;
    if k == 1 {
      assert After(e, run, 0) == Initial();
    } else {
      SteadyIsExact(e, run, begun, rtt, k - 1);
    }
    SteadyStep(e, After(e, run, k - 1), run[k - 1], begun, rtt);
  }

  lemma SteadyStep(e: real -> real, s: State, snap: Snapshot, begun: real, rtt: real)
    requires |s.recent| == HEALTH_WINDOW && (s.offset == None || (s.offset == Some(begun) && s.rtt == rtt))
    requires snap.rtt == Some(rtt) && 0.0 <= rtt < 5.0
    requires snap.tick as real == begun + 30.0 * (snap.recvNow - rtt / 2.0)
    ensures OnSnapshotSpec(e, s, snap).offset == Some(begun) && OnSnapshotSpec(e, s, snap).rtt == rtt
  {
    assert NextRtt(s, snap) == rtt;
    assert Sample(s, snap) == begun;
    hide MinOf, Ease.Aim, Steered, Clamp, Base, Sample, NextRtt;
  }

  /** Others are drawn two ticks late and a quarter of the round trip's ticks more, up to six: later as the round trip
      is longer. */
  lemma {:induction false} DelayGrows(e: real -> real, run: seq<Snapshot>, k: nat)
    requires 0 < k <= |run|
    ensures var s := After(e, run, k); s.interpDelay == if s.rtt * 7.5 >= 4.0 then 6.0 else 2.0 + s.rtt * 7.5
  {
    RangesKept(e, run, k);
    hide MinOf, Ease.Aim, Steered, Track, Sample;
  }

  // ---- The ring of recent depths ----

  /** The depths of the last `Held(k)` snapshots before `k`. */
  function LastDepths(run: seq<Snapshot>, k: nat): (r: seq<int>)
    requires k <= |run|
    ensures |r| == Held(k)
  {
    seq(Held(k), i requires 0 <= i < Held(k) => run[k - Held(k) + i].health)
  }

  lemma {:induction false} RingHolds(e: real -> real, run: seq<Snapshot>, k: nat)
    requires k <= |run|
    ensures forall i :: k - Held(k) <= i < k ==> After(e, run, k).recent[i % HEALTH_WINDOW] == run[i].health
  {
    hide After;
    if k > 0 {
      RingHolds(e, run, k - 1);
      StepKeepsDepth(e, run, k - 1);
      forall i | k - Held(k) <= i < k
        ensures After(e, run, k).recent[i % HEALTH_WINDOW] == run[i].health
      {
        if i < k - 1 {
          SlotsDiffer(i, k - 1);
        }
      }
    }
  }

  lemma SlotsDiffer(i: nat, j: nat)
    requires i < j < i + HEALTH_WINDOW
    ensures i % HEALTH_WINDOW != j % HEALTH_WINDOW
  {
  }

  /** The slot `r` of the ring was last written by one of the snapshots it still holds. */
  lemma SlotWriter(k: nat, r: nat) returns (i: nat)
    requires r < Held(k)
    ensures k - Held(k) <= i < k && i % HEALTH_WINDOW == r
  {
    if k <= HEALTH_WINDOW {
      i := r;
    } else {
      var first := k - HEALTH_WINDOW;
      var q := first / HEALTH_WINDOW;
      i := if first % HEALTH_WINDOW <= r then q * HEALTH_WINDOW + r else (q + 1) * HEALTH_WINDOW + r;
      assert i % HEALTH_WINDOW == r by {
        var m := i / HEALTH_WINDOW;
        assert i - r == HEALTH_WINDOW * q || i - r == HEALTH_WINDOW * (q + 1);
      }
    }
  }

  lemma MinOfSame(a: seq<int>, b: seq<int>)
    requires a != [] && b != [] && forall x :: x in a <==> x in b
    ensures MinOf(a) == MinOf(b)
  {
    hide MinOf;
    assert MinOf(a) in b && MinOf(b) in a;
  }

  lemma SlotHeld(k: nat, w: nat)
    requires k - Held(k) <= w < k
    ensures w % HEALTH_WINDOW < Held(k)
  {
  }

  lemma RingHasLast(e: real -> real, run: seq<Snapshot>, k: nat, j: nat)
    requires 0 < k <= |run| && j < Held(k)
    ensures LastDepths(run, k)[j] in After(e, run, k).recent[..Held(k)]
  {
    hide After;
    RingHolds(e, run, k);
    var w := k - Held(k) + j;
    SlotHeld(k, w);
    var slot := w % HEALTH_WINDOW;
    assert After(e, run, k).recent[slot] == run[w].health;
    assert After(e, run, k).recent[..Held(k)][slot] == run[w].health;
  }

  lemma LastHasRing(e: real -> real, run: seq<Snapshot>, k: nat, r: nat)
    requires 0 < k <= |run| && r < Held(k)
    ensures After(e, run, k).recent[r] in LastDepths(run, k)
  {
    hide After, LastDepths;
    RingHolds(e, run, k);
    var i := SlotWriter(k, r);
    assert After(e, run, k).recent[i % HEALTH_WINDOW] == run[i].health;
    DepthIsLast(run, k, i);
  }

  lemma DepthIsLast(run: seq<Snapshot>, k: nat, i: nat)
    requires k - Held(k) <= i < k <= |run|
    ensures run[i].health in LastDepths(run, k)
  {
    assert LastDepths(run, k)[i - (k - Held(k))] == run[i].health;
  }

  /** Main result: the ring's minimum is the minimum of the last (at most thirty) depths. */
  lemma RingMinimum(e: real -> real, run: seq<Snapshot>, k: nat)
    requires 0 < k <= |run|
    ensures MinOf(After(e, run, k).recent[..Held(k)]) == MinOf(LastDepths(run, k))
    ensures |LastDepths(run, k)| == (if k < 30 then k else 30)
  {
    hide After, MinOf, LastDepths;
    var ring := After(e, run, k).recent[..Held(k)];
    var last := LastDepths(run, k);
    forall x | x in ring
      ensures x in last
    {
      var r :| 0 <= r < |ring| && ring[r] == x;
      LastHasRing(e, run, k, r);
    }
    forall x | x in last
      ensures x in ring
    {
      var j :| 0 <= j < |last| && last[j] == x;
      RingHasLast(e, run, k, j);
    }
    MinOfSame(ring, last);
  }

  /** Running dry lengthens the lead at once, and nothing else does; in between it holds. */
  lemma LeadGrowsIff(lead: real, health: int, last: seq<int>)
    requires health in last
    ensures Steered(lead, health, MinOf(last)) > lead <==> health as real < TARGET_HEALTH
    ensures health as real >= TARGET_HEALTH && (exists d :: d in last && d as real <= TARGET_HEALTH) ==>
              Steered(lead, health, MinOf(last)) == lead
  {
  }

  /** The lead is shortened (before clamping) exactly when every one of the last depths is spare. */
  lemma LeadShrinksIff(e: real -> real, run: seq<Snapshot>, k: nat)
    requires 0 < k <= |run|
    ensures Steered(After(e, run, k - 1).lead, run[k - 1].health, MinOf(After(e, run, k).recent[..Held(k)]))
              < After(e, run, k - 1).lead
       <==> forall d :: d in LastDepths(run, k) ==> d as real > TARGET_HEALTH
  {
    hide After, MinOf, Steered;
    RingMinimum(e, run, k);
    var last := LastDepths(run, k);
    assert last[Held(k) - 1] == run[k - 1].health;
    SteeredDownIff(After(e, run, k - 1).lead, run[k - 1].health, last);
  }

  lemma SteeredDownIff(lead: real, health: int, last: seq<int>)
    requires health in last
    ensures Steered(lead, health, MinOf(last)) < lead <==> forall d :: d in last ==> d as real > TARGET_HEALTH
  {
    hide MinOf;
    var l := MinOf(last);
    if l as real > TARGET_HEALTH {
      forall d | d in last
        ensures d as real > TARGET_HEALTH
      {
        assert d >= l;
      }
    }
  }

  /** The lead over a run: a depth short of two lengthens it by a tenth of what is missing; the least of the last
      thirty over two shortens it by a fiftieth of what is spare; and it is kept half a tick to 45 over half the
      round trip. */
  lemma LeadLaw(e: real -> real, run: seq<Snapshot>, k: nat)
    requires 0 < k <= |run|
    ensures var was, s, low := After(e, run, k - 1).lead, After(e, run, k), MinOf(LastDepths(run, k));
            var h := run[k - 1].health;
            var lead := if h < 2 then was + 0.1 * (2 - h) as real
                        else if low > 2 then was - 0.02 * (low - 2) as real else was;
            s.lead == if lead < 15.0 * s.rtt + 0.5 then 15.0 * s.rtt + 0.5
                      else if lead > 15.0 * s.rtt + 45.0 then 15.0 * s.rtt + 45.0 else lead
  {
    hide After, MinOf, LastDepths, Held;
    RingMinimum(e, run, k);
    StepLead(e, run, k);
  }

  lemma StepLead(e: real -> real, run: seq<Snapshot>, k: nat)
    requires 0 < k <= |run|
    ensures var was, s := After(e, run, k - 1).lead, After(e, run, k);
            s.lead == Clamp(Steered(was, run[k - 1].health, MinOf(s.recent[..Held(k)])),
                            15.0 * s.rtt + 0.5, 15.0 * s.rtt + 45.0)
  {
    hide OnSnapshotSpec, MinOf, Steered, Clamp;
    SpecLead(e, After(e, run, k - 1), run[k - 1]);
  }

  lemma SpecLead(e: real -> real, s: State, snap: Snapshot)
    requires |s.recent| == HEALTH_WINDOW
    ensures var t := OnSnapshotSpec(e, s, snap);
            |t.recent| == HEALTH_WINDOW
            && t.lead == Clamp(Steered(s.lead, snap.health, MinOf(t.recent[..Held(s.recentN + 1)])),
                               15.0 * t.rtt + 0.5, 15.0 * t.rtt + 45.0)
  {
    hide MinOf, Ease.Aim, Track, Sample, NextRtt, Steered, Clamp;
  }

  // ---- The drawn clocks over a run ----

  /** Feeding a snapshot moves neither drawn clock at that instant, so long as each new target is
      within the snap distance of where it is drawn. */
  lemma DrawnClocksCarryOn(e: real -> real, run: seq<Snapshot>, k: nat)
    requires IsExp(e) && 0 < k < |run|
    ensures var s, t, now := After(e, run, k), After(e, run, k + 1), run[k].recvNow;
            && (Abs(t.own.to - s.own.At(e, now)) <= EASE_SNAP ==>
                t.own.At(e, now) == s.own.At(e, now) && t.own.Rate(e, now) == s.own.Rate(e, now))
            && (Abs(t.view.to - s.view.At(e, now)) <= EASE_SNAP ==>
                t.view.At(e, now) == s.view.At(e, now) && t.view.Rate(e, now) == s.view.Rate(e, now))
  {
    hide After, IsExp, Ease.At, Ease.Rate, Ease.Aim, Abs;
    StepAims(e, run, k);
    StepAims(e, run, k - 1);
    var s, t, now := After(e, run, k), After(e, run, k + 1), run[k].recvNow;
    if Abs(t.own.to - s.own.At(e, now)) <= EASE_SNAP {
      CarriesOn(e, s.own, t.own, now);
    }
    if Abs(t.view.to - s.view.At(e, now)) <= EASE_SNAP {
      CarriesOn(e, s.view, t.view, now);
    }
  }

  lemma CarriesOn(e: real -> real, x: Ease, y: Ease, now: real)
    requires IsExp(e) && x.aimed && y == x.Aim(e, now, y.to) && Abs(y.to - x.At(e, now)) <= EASE_SNAP
    ensures y.At(e, now) == x.At(e, now) && y.Rate(e, now) == x.Rate(e, now)
  {
    hide IsExp, Ease.At, Ease.Rate, Ease.Aim;
    AimCarriesOnIff(e, x, now, y.to);
  }

  /** After a snapshot the own clock heads for the input clock, and everyone else's for the delayed one. */
  lemma StepAims(e: real -> real, run: seq<Snapshot>, k: nat)
    requires k < |run|
    ensures var s, t, now := After(e, run, k), After(e, run, k + 1), run[k].recvNow;
            && t.own.aimed && t.own == s.own.Aim(e, now, t.own.to)
            && t.view.aimed && t.view == s.view.Aim(e, now, t.view.to)
            && t.own.to == t.offset.value + t.lead && t.view.to == t.offset.value - t.interpDelay
  {
    hide Track, Sample, NextRtt, MinOf, Clamp, Steered, Ease.State;
  }

  // ---- How fast the drawn clocks run ----

  /** How fast a gap of the snap distance lets an offset move, ticks a second. */
  const PACE_MAX: real := EASE_SNAP * EASE / 2.0

  /** What every aim leaves of an offset. */
  ghost predicate Gentle(x: Ease) {
    -EASE_SNAP <= x.gap <= EASE_SNAP && -PACE_MAX <= x.pace <= PACE_MAX
  }

  /** The exponential outgrows the line that touches it beyond `1`. */
  lemma AboveSteepLine(e: real -> real, x: real)
    requires IsExp(e) && AboveTangent(e) && x >= 1.0
    ensures e(x) >= 3.0 * x - 1.0
  {
    var third := 1.0 / 3.0;
    var a, b := 2.0 * third, 4.0 * third;
    Sum(e, third, third);
    Sum(e, a, a);
    Sum(e, b, x - b);
    assert e(third) >= 1.0 + third && e(x - b) >= 1.0 + (x - b);
    assert third + third == a && a + a == b && b + (x - b) == x;
    SteepLine(e(third), e(a), e(b), e(x - b), x);
  }

  lemma SteepLine(third: real, two: real, four: real, rest: real, x: real)
    requires third >= 4.0 / 3.0 && two == third * third && four == two * two && rest >= x - 1.0 / 3.0 && x >= 1.0
    ensures four * rest >= 3.0 * x - 1.0
  {
    assert two >= 16.0 / 9.0 by {
      Scale(third, 4.0 / 3.0, third);
    }
    assert four >= 256.0 / 81.0 by {
      Scale(two, 16.0 / 9.0, two);
    }
    Scale(rest, 3.0, four);
  }

  /** Both ways of slowing down, after `x` time constants, come to no more than was there at first. */
  lemma SlowsDown(e: real -> real, x: real)
    requires IsExp(e) && AboveTangent(e) && x >= 0.0
    ensures 0.0 < e(-x) && (1.0 + x) * e(-x) <= 1.0 && (3.0 * x - 1.0) * e(-x) <= 1.0
  {
    Inverse(e, x);
    assert e(-x) > 0.0 && e(x) >= 1.0 + x;
    if x >= 1.0 {
      AboveSteepLine(e, x);
    }
    hide IsExp, AboveTangent;
    Scale(e(-x), 1.0 + x, e(x));
    Scale(e(-x), 3.0 * x - 1.0, e(x));
  }

  /** From a gentle start an offset never moves faster. */
  lemma GentlePace(e: real -> real, x: Ease, now: real)
    requires IsExp(e) && AboveTangent(e) && Gentle(x)
    ensures -PACE_MAX <= x.State(e, now).1 <= PACE_MAX
  {
    var t := Max(now - x.since, 0.0);
    var w := EASE * t;
    SlowsDown(e, w);
    assert -EASE * t == -w;
    hide IsExp, AboveTangent;
    PaceBound(x.gap, x.pace, w, e(-w), x.State(e, now).1);
  }

  lemma PaceBound(g: real, p: real, x: real, left: real, r: real)
    requires -4.0 <= g <= 4.0 && -5.0 <= p <= 5.0 && x >= 0.0 && left > 0.0
    requires (1.0 + x) * left <= 1.0 && (3.0 * x - 1.0) * left <= 1.0
    requires r == (p - (p + g * EASE) * x) * left
    ensures -5.0 <= r <= 5.0
  {
    var m := if x <= 1.0 then 5.0 * (1.0 + x) else 5.0 * (3.0 * x - 1.0);
    var q := p - (p + g * EASE) * x;
    assert -m <= q <= m by {
      UnscaledPace(g, p, x, m, q);
    }
    assert m * left <= 5.0;
    ScaledWithin(q, m, left, r);
  }

  lemma UnscaledPace(g: real, p: real, x: real, m: real, q: real)
    requires -4.0 <= g <= 4.0 && -5.0 <= p <= 5.0 && x >= 0.0
    requires m == if x <= 1.0 then 5.0 * (1.0 + x) else 5.0 * (3.0 * x - 1.0)
    requires q == p - (p + g * EASE) * x
    ensures -m <= q <= m
  {
    var gx := g * x;
    GapTimes(g, x, gx);
    var left := p - p * x;
    PaceLeft(p, x, left);
    assert q == left - gx * EASE by {
      assert (p + g * EASE) * x == p * x + gx * EASE;
    }
  }

  lemma Products(k: real, a: real, b: real, ak: real, bk: real)
    requires k >= 0.0 && a <= b && ak == a * k && bk == b * k
    ensures ak <= bk
  {
    Scale(k, a, b);
  }

  lemma GapTimes(g: real, x: real, gx: real)
    requires -4.0 <= g <= 4.0 && x >= 0.0 && gx == g * x
    ensures -4.0 * x <= gx <= 4.0 * x
  {
    Products(x, g, 4.0, gx, 4.0 * x);
    Products(x, -4.0, g, -4.0 * x, gx);
  }

  lemma PaceLeft(p: real, x: real, left: real)
    requires -5.0 <= p <= 5.0 && x >= 0.0 && left == p - p * x
    ensures x <= 1.0 ==> -5.0 * (1.0 - x) <= left <= 5.0 * (1.0 - x)
    ensures x > 1.0 ==> -5.0 * (x - 1.0) <= left <= 5.0 * (x - 1.0)
  {
    var y := if x <= 1.0 then 1.0 - x else x - 1.0;
    var py := p * y;
    Products(y, p, 5.0, py, 5.0 * y);
    Products(y, -5.0, p, -5.0 * y, py);
    assert left == if x <= 1.0 then py else -py;
  }

  lemma ScaledWithin(q: real, m: real, k: real, r: real)
    requires -m <= q <= m && k >= 0.0 && r == q * k && m * k <= 5.0
    ensures -5.0 <= r <= 5.0
  {
    var mk := m * k;
    Products(k, q, m, r, mk);
    assert -mk == (-m) * k;
    Products(k, -m, q, -mk, r);
  }

  lemma AimKeepsGentle(e: real -> real, x: Ease, now: real, target: real)
    requires IsExp(e) && AboveTangent(e) && Gentle(x)
    ensures Gentle(x.Aim(e, now, target))
  {
    GentlePace(e, x, now);
    hide IsExp, AboveTangent, Ease.State;
  }

  lemma {:induction false} RunKeepsGentle(e: real -> real, run: seq<Snapshot>, k: nat)
    requires IsExp(e) && AboveTangent(e) && k <= |run|
    ensures Gentle(After(e, run, k).own) && Gentle(After(e, run, k).view)
  {
    hide OnSnapshotSpec, IsExp, AboveTangent, Ease.Aim;
    if k > 0 {
      RunKeepsGentle(e, run, k - 1);
      StepAims(e, run, k - 1);
      var s, t, now := After(e, run, k - 1), After(e, run, k), run[k - 1].recvNow;
      AimKeepsGentle(e, s.own, now, t.own.to);
      AimKeepsGentle(e, s.view, now, t.view.to);
    } else {
      hide Gentle;
      UnaimedIsGentle();
    }
  }

  lemma UnaimedIsGentle()
    ensures Gentle(UNAIMED)
  {
  }

  /** Main result: over every run, at every time, neither drawn clock runs more than a sixth off real time. */
  lemma RatesNearRealTime(e: real -> real, run: seq<Snapshot>, k: nat, now: real)
    requires IsExp(e) && AboveTangent(e) && k <= |run|
    ensures 5.0 / 6.0 <= After(e, run, k).own.Rate(e, now) <= 7.0 / 6.0
    ensures 5.0 / 6.0 <= After(e, run, k).view.Rate(e, now) <= 7.0 / 6.0
  {
    hide After, Gentle, Ease.State;
    RunKeepsGentle(e, run, k);
    GentlePace(e, After(e, run, k).own, now);
    GentlePace(e, After(e, run, k).view, now);
  }

  // ---- A page that stalls ----

  /** A page in step with the server stalls for a second, then takes fourteen snapshots at once, the last telling
      it that input ran dry by 45 ticks; a late one follows a tenth of a second on, with a round trip of `rtt`. */
  function Stalled(k: nat, rtt: real): Snapshot {
    if k == 0 then Snapshot(0, 0.0, None, 2)
    else if k < 14 then Snapshot(k, 1.0, None, 2)
    else if k == 14 then Snapshot(14, 1.0, None, -45)
    else Snapshot(24, 1.1, Some(rtt), 2)
  }

  function StalledRun(rtt: real): seq<Snapshot> {
    seq(16, k requires 0 <= k < 16 => Stalled(k, rtt))
  }

  /** The gap left a tenth of a second after one of the snap distance, from rest. */
  function GapLeft(e: real -> real): real {
    Ease(0.0, -EASE_SNAP, 0.0, 0.0, true).After(e, 0.1).0
  }

  /** The round trip that sends the estimate back as far as it goes without a jump. */
  function BackBySnap(e: real -> real): real {
    (4.45 + GapLeft(e)) / 1.5
  }

  lemma LowestAtMost(s: State, snap: Snapshot)
    requires |s.recent| == HEALTH_WINDOW
    ensures MinOf(s.recent[s.recentN % HEALTH_WINDOW := snap.health][..Held(s.recentN + 1)]) <= snap.health
  {
    var i := s.recentN % HEALTH_WINDOW;
    var recent := s.recent[i := snap.health];
    assert i < Held(s.recentN + 1);
    var held := recent[..Held(s.recentN + 1)];
    assert held[i] == snap.health;
    assert snap.health in held;
  }

  /** The estimate, the lead and the own clock after `late` of the burst. */
  ghost predicate InBurst(s: State, late: nat) {
    && s.offset == Some(1.5 - 0.05 * late as real) && s.rtt == 0.1 && s.lead == 4.0 && s.lateRun == late
    && s.own == Ease(5.5 - 0.05 * late as real, 0.05 * late as real, 0.0, s.own.since, true)
    && (if late == 0 then s.own.since == 0.0 else s.own.since == 1.0)
  }

  /** Still, or just aimed: drawn where it was at first. */
  lemma DrawnInBurst(e: real -> real, s: State, late: nat)
    requires IsExp(e) && InBurst(s, late)
    ensures s.own.State(e, 1.0) == (0.05 * late as real, 0.0)
  {
    StateAtAim(e, s.own);
    if late == 0 {
      hide IsExp;
      StateIs(e, s.own, 1.0);
    }
  }

  lemma BurstStep(e: real -> real, s: State, late: nat, rtt: real)
    requires IsExp(e) && InBurst(s, late) && late < 13 && |s.recent| == HEALTH_WINDOW
    ensures InBurst(OnSnapshotSpec(e, s, Stalled(late + 1, rtt)), late + 1)
  {
    hide IsExp, MinOf, Ease.State;
    DrawnInBurst(e, s, late);
    LowestAtMost(s, Stalled(late + 1, rtt));
  }

  lemma FirstIsSynced(e: real -> real, rtt: real)
    ensures InBurst(OnSnapshotSpec(e, Initial(), Stalled(0, rtt)), 0)
  {
    hide MinOf, Ease.State;
    LowestAtMost(Initial(), Stalled(0, rtt));
  }

  lemma {:induction false} AfterBurst(e: real -> real, rtt: real, late: nat)
    requires IsExp(e) && late <= 13
    ensures InBurst(After(e, StalledRun(rtt), late + 1), late)
  {
    hide IsExp, OnSnapshotSpec, InBurst, Stalled;
    if late == 0 {
      FirstIsSynced(e, rtt);
      assert After(e, StalledRun(rtt), 0) == Initial();
    } else {
      AfterBurst(e, rtt, late - 1);
      BurstStep(e, After(e, StalledRun(rtt), late), late - 1, rtt);
    }
  }

  /** The report of a dry input moves the target out by the snap distance. */
  lemma DryReport(e: real -> real, s: State, rtt: real)
    requires IsExp(e) && InBurst(s, 13) && |s.recent| == HEALTH_WINDOW
    ensures var t := OnSnapshotSpec(e, s, Stalled(14, rtt));
            && t.offset == Some(0.8) && t.rtt == 0.1 && t.lead == 8.7 && t.lateRun == 14
            && t.own == Ease(9.5, -EASE_SNAP, 0.0, 1.0, true)
  {
    hide IsExp, MinOf, Ease.State;
    DrawnInBurst(e, s, 13);
  }

  lemma GapLeftBounds(e: real -> real)
    requires IsExp(e) && AboveTangent(e)
    ensures -4.0 <= GapLeft(e) <= -3.75
  {
    SlowsDown(e, 0.25);
    hide IsExp;
    assert e(-0.25) >= 0.75;
    assert -EASE * 0.1 == -0.25;
    assert GapLeft(e) == -5.0 * e(-0.25);
  }

  /** The fifteenth late snapshot moves it back, by as much from where the own clock is drawn. */
  lemma LateAgain(e: real -> real, s: State)
    requires IsExp(e) && AboveTangent(e) && |s.recent| == HEALTH_WINDOW
    requires s.offset == Some(0.8) && s.rtt == 0.1 && s.lead == 8.7 && s.lateRun == 14
    requires s.own == Ease(9.5, -EASE_SNAP, 0.0, 1.0, true)
    ensures var t := OnSnapshotSpec(e, s, Stalled(15, BackBySnap(e)));
            t.own == s.own.Aim(e, 1.1, s.own.At(e, 1.1) - EASE_SNAP)
  {
    GapLeftBounds(e);
    LowestAtMost(s, Stalled(15, BackBySnap(e)));
    hide MinOf, Ease.Aim, IsExp, AboveTangent;
    assert s.own.At(e, 1.1) == 9.5 + GapLeft(e) by {
      StateIs(e, s.own, 0.1);
    }
    hide Ease.At, GapLeft;
  }

  /** In the run of such a page the own clock's gap passes the snap distance, a fiftieth of a second after the
      last snapshot; aimed then at the target it has, it jumps. */
  lemma GapCanPassSnap(e: real -> real)
    requires IsExp(e) && AboveTangent(e)
    ensures var x := After(e, StalledRun(BackBySnap(e)), 16).own;
            && x.aimed && x.since <= 1.12 && x.State(e, 1.12).0 > EASE_SNAP
            && !(forall later :: later >= 1.12 ==> SameState(e, x.Aim(e, 1.12, x.to), x, later))
  {
    hide IsExp, AboveTangent, OnSnapshotSpec, InBurst, Stalled, BackBySnap, Ease.At, Ease.State, SameState;
    var rtt := BackBySnap(e);
    var run := StalledRun(rtt);
    AfterBurst(e, rtt, 13);
    DryReport(e, After(e, run, 14), rtt);
    LateAgain(e, After(e, run, 15));
    SentBackPasses(e, After(e, run, 15).own, After(e, run, 16).own);
  }

  /** With nothing for a while after the burst, it runs more than a tenth fast. */
  lemma CanRunATenthFast(e: real -> real, rtt: real)
    requires IsExp(e) && AboveTangent(e)
    ensures After(e, StalledRun(rtt), 15).own.Rate(e, 1.4) > 1.1
  {
    hide IsExp, AboveTangent, OnSnapshotSpec, InBurst, Stalled;
    AfterBurst(e, rtt, 13);
    DryReport(e, After(e, StalledRun(rtt), 14), rtt);
    var x := After(e, StalledRun(rtt), 15).own;
    OneTimeConstant(e);
    StateIs(e, x, 0.4);
    assert -EASE * 0.4 == -1.0;
    assert x.State(e, 1.4).1 == 10.0 * e(-1.0);
  }

  lemma OneTimeConstant(e: real -> real)
    requires IsExp(e) && AboveTangent(e)
    ensures e(-1.0) >= 0.32
  {
    Sum(e, -0.2, -0.2);
    Sum(e, -0.4, -0.4);
    Sum(e, -0.8, -0.2);
    assert e(-0.2) >= 0.8;
    hide IsExp, AboveTangent;
    Scale(e(-0.2), 0.8, e(-0.2));
    Scale(e(-0.4), 0.64, e(-0.4));
    Scale(e(-0.2), 0.4096, e(-0.8));
  }
}
