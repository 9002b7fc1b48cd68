/** Two rings of vertices round one axis, a hole's edge and a bowl's rim, zipped into a band of triangles. */
module Stitching {

  /** A ring's points in order round the axis: each one's angle and its vertex. */
  type Ring = seq<(real, nat)>

  datatype Tri = Tri(a: nat, b: nat, c: nat)

  /** Angles in order, within one turn. */
  ghost predicate Sorted(ring: Ring, turn: real) {
    && (forall i :: 0 <= i < |ring| ==> 0.0 <= ring[i].0 < turn)
    && (forall i, j :: 0 <= i <= j < |ring| ==> ring[i].0 <= ring[j].0)
  }

  /** The angle of the ring's point `i`, a turn further on once past its last. */
  function Unwound(ring: Ring, turn: real, i: nat): real
    requires ring != []
  {
    ring[i % |ring|].0 + (if i >= |ring| then turn else 0.0)
  }

  /** The steps of a zip: true where the hole's ring moved on, false where the rim's did. */
  type Steps = seq<bool>

  function HoleSteps(s: Steps): (n: nat)
    ensures n <= |s|
  {
    if s == [] then 0 else HoleSteps(s[..|s| - 1]) + (if s[|s| - 1] then 1 else 0)
  }

  function RimSteps(s: Steps): nat {
    |s| - HoleSteps(s)
  }

  lemma HoleStepsAppend(s: Steps, x: bool)
    ensures HoleSteps(s + [x]) == HoleSteps(s) + if x then 1 else 0
  {
    assert (s + [x])[..|s|] == s;
  }

  /** The triangle of a step taken from `i` points along the hole and `k` along the rim. */
  function StepTri(hole: Ring, rim: Ring, i: nat, k: nat, onHole: bool): Tri
    requires hole != [] && rim != []
  {
    var h, r := |hole|, |rim|;
    if onHole then Tri(hole[i % h].1, hole[(i + 1) % h].1, rim[k % r].1)
    else Tri(hole[i % h].1, rim[(k + 1) % r].1, rim[k % r].1)
  }

  /** The angle a step moves on to. */
  function StepAngle(hole: Ring, rim: Ring, turn: real, i: nat, k: nat, onHole: bool): real
    requires hole != [] && rim != []
  {
    if onHole then Unwound(hole, turn, i + 1) else Unwound(rim, turn, k + 1)
  }

  /** Triangle `t` is the one its step makes, from where the steps before it got to. */
  ghost predicate Follows(hole: Ring, rim: Ring, steps: Steps, tris: seq<Tri>) {
    && hole != [] && rim != [] && |tris| == |steps|
    && forall t :: 0 <= t < |steps| ==>
                     tris[t] == StepTri(hole, rim, HoleSteps(steps[..t]), RimSteps(steps[..t]), steps[t])
  }

  /** The angle step `t` moves on to. */
  function AngleAt(hole: Ring, rim: Ring, turn: real, steps: Steps, t: nat): real
    requires hole != [] && rim != [] && t < |steps|
  {
    StepAngle(hole, rim, turn, HoleSteps(steps[..t]), RimSteps(steps[..t]), steps[t])
  }

  /** The steps take the points of both rings in order of their angles. */
  ghost predicate Merged(hole: Ring, rim: Ring, turn: real, steps: Steps)
    requires hole != [] && rim != []
  {
    forall t, u :: 0 <= t <= u < |steps| ==> AngleAt(hole, rim, turn, steps, t) <= AngleAt(hole, rim, turn, steps, u)
  }

  /** Each step is on the ring whose next point comes first, on the hole's where they tie. */
  ghost predicate Chosen(hole: Ring, rim: Ring, turn: real, steps: Steps)
    requires hole != [] && rim != []
  {
    forall t :: 0 <= t < |steps| ==> ChosenAt(hole, rim, turn, HoleSteps(steps[..t]), RimSteps(steps[..t]), steps[t])
  }

  predicate ChosenAt(hole: Ring, rim: Ring, turn: real, i: nat, k: nat, onHole: bool)
    requires hole != [] && rim != []
  {
    onHole <==> k >= |rim| || (i < |hole| && Unwound(hole, turn, i + 1) <= Unwound(rim, turn, k + 1))
  }

  /** Steps taken so far never pass the angle either ring moves on to next. */
  ghost predicate Behind(hole: Ring, rim: Ring, turn: real, steps: Steps)
    requires hole != [] && rim != []
  {
    var i, k := HoleSteps(steps), RimSteps(steps);
    && (i < |hole| ==> forall t :: 0 <= t < |steps| ==>
        AngleAt(hole, rim, turn, steps, t) <= Unwound(hole, turn, i + 1))
    && (k < |rim| ==> forall t :: 0 <= t < |steps| ==> AngleAt(hole, rim, turn, steps, t) <= Unwound(rim, turn, k + 1))
  }

  lemma UnwoundRises(ring: Ring, turn: real, i: nat)
    requires ring != [] && Sorted(ring, turn) && 1 <= i < |ring|
    ensures Unwound(ring, turn, i) <= Unwound(ring, turn, i + 1)
  {
    if i + 1 < |ring| {
      assert i % |ring| == i && (i + 1) % |ring| == i + 1;
    } else {
      assert i % |ring| == i && (i + 1) % |ring| == 0;
    }
  }

  /** Earlier steps keep their angles as more are added. */
  lemma AnglesKept(hole: Ring, rim: Ring, turn: real, steps: Steps, x: bool, t: nat)
    requires hole != [] && rim != [] && t <= |steps|
    ensures t < |steps| ==> AngleAt(hole, rim, turn, steps + [x], t) == AngleAt(hole, rim, turn, steps, t)
    ensures t == |steps| ==>
              AngleAt(hole, rim, turn, steps + [x], t)
                == StepAngle(hole, rim, turn, HoleSteps(steps), RimSteps(steps), x)
  {
    assert (steps + [x])[..t] == steps[..t];
    assert steps[..|steps|] == steps;
  }

  /** Taking the ring whose next point comes first keeps the points in order. */
  lemma StepKeepsOrder(hole: Ring, rim: Ring, turn: real, steps: Steps, x: bool)
    requires hole != [] && rim != [] && Sorted(hole, turn) && Sorted(rim, turn)
    requires Merged(hole, rim, turn, steps) && Behind(hole, rim, turn, steps)
    requires var i, k := HoleSteps(steps), RimSteps(steps);
             && i <= |hole| && k <= |rim|
             && (x ==> i < |hole| && (k < |rim| ==> Unwound(hole, turn, i + 1) <= Unwound(rim, turn, k + 1)))
             && (!x ==> k < |rim| && (i < |hole| ==> Unwound(rim, turn, k + 1) <= Unwound(hole, turn, i + 1)))
    ensures Merged(hole, rim, turn, steps + [x]) && Behind(hole, rim, turn, steps + [x])
  {
    hide Unwound, AngleAt, Sorted, HoleSteps;
    var i, k := HoleSteps(steps), RimSteps(steps);
    HoleStepsAppend(steps, x);
    if x && i + 1 < |hole| {
      UnwoundRises(hole, turn, i + 1);
    }
    if !x && k + 1 < |rim| {
      UnwoundRises(rim, turn, k + 1);
    }
    forall t | 0 <= t <= |steps|
      ensures AngleAt(hole, rim, turn, steps + [x], t) <= StepAngle(hole, rim, turn, i, k, x)
    {
      AnglesKept(hole, rim, turn, steps, x, t);
    }
    forall t, u | 0 <= t <= u < |steps + [x]|
      ensures AngleAt(hole, rim, turn, steps + [x], t) <= AngleAt(hole, rim, turn, steps + [x], u)
    {
      AnglesKept(hole, rim, turn, steps, x, t);
      AnglesKept(hole, rim, turn, steps, x, u);
    }
  }

  /** The zip: always stepping the ring whose next point comes first. */
  method Zip(hole: Ring, rim: Ring, turn: real) returns (tris: seq<Tri>, ghost steps: Steps)
    requires Sorted(hole, turn) && Sorted(rim, turn)
    ensures hole == [] || rim == [] ==> tris == []
    ensures hole != [] && rim != [] ==>
              && Follows(hole, rim, steps, tris)
              && HoleSteps(steps) == |hole| && RimSteps(steps) == |rim|
              && Merged(hole, rim, turn, steps) && Chosen(hole, rim, turn, steps)
  {
    tris, steps := [], [];
    if hole == [] || rim == [] {
      return;
    }
    hide Sorted, Merged, Behind, Follows, Chosen, Unwound, HoleSteps, StepTri;
    NoSteps();
    Start(hole, rim, turn);
    var h, r := |hole|, |rim|;
    var i, k := 0, 0;
    while i < h || k < r
      invariant 0 <= i <= h && 0 <= k <= r && i == HoleSteps(steps) && k == RimSteps(steps)
      invariant Follows(hole, rim, steps, tris) && Merged(hole, rim, turn, steps) && Behind(hole, rim, turn, steps)
      invariant Chosen(hole, rim, turn, steps)
      decreases h - i + r - k
    {
      var onHole := k >= r || (i < h && Unwound(hole, turn, i + 1) <= Unwound(rim, turn, k + 1));
      assert ChosenAt(hole, rim, turn, i, k, onHole);
      StepTaken(hole, rim, turn, steps, tris, onHole);
      steps := steps + [onHole];
      tris := tris + [StepTri(hole, rim, i, k, onHole)];
      if onHole {
        i := i + 1;
      } else {
        k := k + 1;
      }
    }
  }

  lemma Start(hole: Ring, rim: Ring, turn: real)
    requires hole != [] && rim != []
    ensures Follows(hole, rim, [], []) && Merged(hole, rim, turn, []) && Behind(hole, rim, turn, [])
    ensures Chosen(hole, rim, turn, [])
  {
  }

  /** One step on: everything kept still holds, with one triangle more. */
  lemma StepTaken(hole: Ring, rim: Ring, turn: real, steps: Steps, tris: seq<Tri>, x: bool)
    requires hole != [] && rim != [] && Sorted(hole, turn) && Sorted(rim, turn)
    requires Follows(hole, rim, steps, tris) && Merged(hole, rim, turn, steps) && Behind(hole, rim, turn, steps)
    requires Chosen(hole, rim, turn, steps)
    requires var i, k := HoleSteps(steps), RimSteps(steps);
             i <= |hole| && k <= |rim| && (i < |hole| || k < |rim|) && ChosenAt(hole, rim, turn, i, k, x)
    ensures var more := steps + [x];
            && Follows(hole, rim, more, tris + [StepTri(hole, rim, HoleSteps(steps), RimSteps(steps), x)])
            && Merged(hole, rim, turn, more) && Behind(hole, rim, turn, more) && Chosen(hole, rim, turn, more)
            && HoleSteps(more) == HoleSteps(steps) + (if x then 1 else 0)
            && RimSteps(more) == RimSteps(steps) + (if x then 0 else 1)
  {
    hide Sorted, Merged, Behind, Follows, Chosen, Unwound, HoleSteps;
    HoleStepsAppend(steps, x);
    StepKeepsOrder(hole, rim, turn, steps, x);
    FollowsOn(hole, rim, steps, tris, x);
    ChosenOn(hole, rim, turn, steps, x);
  }

  lemma ChosenOn(hole: Ring, rim: Ring, turn: real, steps: Steps, x: bool)
    requires hole != [] && rim != [] && Chosen(hole, rim, turn, steps)
    requires ChosenAt(hole, rim, turn, HoleSteps(steps), RimSteps(steps), x)
    ensures Chosen(hole, rim, turn, steps + [x])
  {
    hide ChosenAt;
    forall t | 0 <= t <= |steps|
      ensures (steps + [x])[..t] == steps[..t]
    {
    }
    assert steps[..|steps|] == steps;
  }

  lemma FollowsOn(hole: Ring, rim: Ring, steps: Steps, tris: seq<Tri>, x: bool)
    requires Follows(hole, rim, steps, tris)
    ensures Follows(hole, rim, steps + [x], tris + [StepTri(hole, rim, HoleSteps(steps), RimSteps(steps), x)])
  {
    forall t | 0 <= t <= |steps|
      ensures (steps + [x])[..t] == steps[..t]
    {
    }
    assert steps[..|steps|] == steps;
  }

  // ---- Main results: the triangles close the gap as one band ----

  /** A complete zip of two rings. */
  ghost predicate Zipped(hole: Ring, rim: Ring, steps: Steps, tris: seq<Tri>) {
    Follows(hole, rim, steps, tris) && HoleSteps(steps) == |hole| && RimSteps(steps) == |rim|
  }

  /** The spoke before step `t`: a hole vertex and a rim vertex. */
  function Spoke(hole: Ring, rim: Ring, steps: Steps, t: nat): (nat, nat)
    requires hole != [] && rim != [] && t <= |steps|
  {
    (hole[HoleSteps(steps[..t]) % |hole|].1, rim[RimSteps(steps[..t]) % |rim|].1)
  }

  predicate Corner(tri: Tri, v: nat) {
    v == tri.a || v == tri.b || v == tri.c
  }

  /** Two vertices are both corners of a triangle. */
  predicate Holds(tri: Tri, edge: (nat, nat)) {
    Corner(tri, edge.0) && Corner(tri, edge.1)
  }

  /** No vertex stands twice, and neither ring is a mere pair of points. */
  ghost predicate Apart(hole: Ring, rim: Ring) {
    && |hole| >= 3 && |rim| >= 3
    && (forall i, j :: 0 <= i < j < |hole| ==> hole[i].1 != hole[j].1)
    && (forall i, j :: 0 <= i < j < |rim| ==> rim[i].1 != rim[j].1)
    && (forall i, j :: 0 <= i < |hole| && 0 <= j < |rim| ==> hole[i].1 != rim[j].1)
  }

  function Next(a: nat, n: nat): (b: nat)
    requires a < n
    ensures b == if a + 1 == n then 0 else a + 1
  {
    (a + 1) % n
  }

  lemma HoleStepsNext(s: Steps, t: nat)
    requires t < |s|
    ensures HoleSteps(s[..t + 1]) == HoleSteps(s[..t]) + (if s[t] then 1 else 0)
  {
    assert s[..t + 1] == s[..t] + [s[t]];
    HoleStepsAppend(s[..t], s[t]);
  }

  /** There are as many triangles as points; each lies between the spoke it shares with the one before
      and the spoke it shares with the one after; and the last spoke is the first. */
  lemma OneBand(hole: Ring, rim: Ring, steps: Steps, tris: seq<Tri>, t: nat)
    requires Zipped(hole, rim, steps, tris) && t < |tris|
    ensures |tris| == |hole| + |rim|
    ensures Holds(tris[t], Spoke(hole, rim, steps, t)) && Holds(tris[t], Spoke(hole, rim, steps, t + 1))
    ensures Spoke(hole, rim, steps, |steps|) == Spoke(hole, rim, steps, 0)
  {
    hide HoleSteps;
    HoleStepsNext(steps, t);
    assert steps[..|steps|] == steps && steps[..0] == [];
    NoSteps();
    WholeTurn(|hole|);
    WholeTurn(|rim|);
  }

  lemma NoSteps()
    ensures HoleSteps([]) == 0
  {
  }

  lemma Within(a: nat, n: nat)
    requires a < n
    ensures a % n == a
  {
  }

  lemma WholeTurn(n: nat)
    requires n > 0
    ensures n % n == 0 && 0 % n == 0
  {
  }

  lemma {:induction false} HoleStepsRise(s: Steps, t: nat, u: nat)
    requires t <= u <= |s|
    ensures HoleSteps(s[..t]) <= HoleSteps(s[..u]) <= HoleSteps(s[..t]) + (u - t)
    decreases u
  {
    if t < u {
      HoleStepsRise(s, t, u - 1);
      assert s[..u][..u - 1] == s[..u - 1];
    }
  }

  lemma {:induction false} FindHoleStep(s: Steps, a: nat) returns (t: nat)
    requires a < HoleSteps(s)
    ensures t < |s| && s[t] && HoleSteps(s[..t]) == a
  {
    var n := |s| - 1;
    if s[n] && HoleSteps(s[..n]) == a {
      t := n;
    } else {
      t := FindHoleStep(s[..n], a);
      assert s[..n][..t] == s[..t];
    }
  }

  lemma {:induction false} FindRimStep(s: Steps, a: nat) returns (t: nat)
    requires a < RimSteps(s)
    ensures t < |s| && !s[t] && RimSteps(s[..t]) == a
  {
    var n := |s| - 1;
    if !s[n] && RimSteps(s[..n]) == a {
      t := n;
    } else {
      t := FindRimStep(s[..n], a);
      assert s[..n][..t] == s[..t];
    }
  }

  /** Step `t` is the one that uses the hole's edge from its point `a` to the next. */
  ghost predicate UsesHoleEdge(steps: Steps, a: nat, t: nat) {
    t < |steps| && steps[t] && HoleSteps(steps[..t]) == a
  }

  ghost predicate UsesRimEdge(steps: Steps, a: nat, t: nat) {
    t < |steps| && !steps[t] && RimSteps(steps[..t]) == a
  }

  /** Each edge of the hole's ring is an edge of exactly one triangle. */
  lemma HoleEdgeOnce(hole: Ring, rim: Ring, steps: Steps, tris: seq<Tri>, a: nat) returns (t: nat)
    requires Zipped(hole, rim, steps, tris) && a < |hole|
    ensures UsesHoleEdge(steps, a, t) && tris[t].a == hole[a].1 && tris[t].b == hole[(a + 1) % |hole|].1
    ensures forall u :: UsesHoleEdge(steps, a, u) ==> u == t
    ensures Apart(hole, rim) ==>
              forall u :: 0 <= u < |tris| ==> (Holds(tris[u], (hole[a].1, hole[Next(a, |hole|)].1)) <==> u == t)
  {
    hide HoleSteps, Next;
    t := FindHoleStep(steps, a);
    OnlyHoleStep(steps, a, t);
    Within(a, |hole|);
    assert tris[t] == StepTri(hole, rim, HoleSteps(steps[..t]), RimSteps(steps[..t]), steps[t]);
    if Apart(hole, rim) {
      forall u | 0 <= u < |tris|
        ensures Holds(tris[u], (hole[a].1, hole[Next(a, |hole|)].1)) <==> u == t
      {
        HoldsHoleEdge(hole, rim, steps, tris, a, u);
      }
    }
  }

  /** Of apart rings a triangle holds an edge of the hole's only if its step uses it. */
  lemma HoldsHoleEdge(hole: Ring, rim: Ring, steps: Steps, tris: seq<Tri>, a: nat, u: nat)
    requires Zipped(hole, rim, steps, tris) && Apart(hole, rim) && a < |hole| && u < |tris|
    ensures Holds(tris[u], (hole[a].1, hole[Next(a, |hole|)].1)) <==> UsesHoleEdge(steps, a, u)
  {
    EveryTriangleUsesAnEdge(hole, rim, steps, tris, u);
    Corners(hole, rim, steps, tris, u);
    hide HoleSteps;
  }

  /** The corners of triangle `u`, by their places in the rings. */
  lemma Corners(hole: Ring, rim: Ring, steps: Steps, tris: seq<Tri>, u: nat)
    requires Zipped(hole, rim, steps, tris) && u < |tris|
    ensures var i, k := HoleSteps(steps[..u]), RimSteps(steps[..u]);
            && (steps[u] ==> i < |hole| && tris[u] == Tri(hole[i].1, hole[Next(i, |hole|)].1, rim[k % |rim|].1))
            && (!steps[u] ==> k < |rim| && tris[u] == Tri(hole[i % |hole|].1, rim[Next(k, |rim|)].1, rim[k].1))
  {
    hide HoleSteps;
    EveryTriangleUsesAnEdge(hole, rim, steps, tris, u);
    assert tris[u] == StepTri(hole, rim, HoleSteps(steps[..u]), RimSteps(steps[..u]), steps[u]);
    if steps[u] {
      Within(HoleSteps(steps[..u]), |hole|);
    } else {
      Within(RimSteps(steps[..u]), |rim|);
    }
  }

  lemma OnlyHoleStep(steps: Steps, a: nat, t: nat)
    requires UsesHoleEdge(steps, a, t)
    ensures forall u :: UsesHoleEdge(steps, a, u) ==> u == t
  {
    hide UsesHoleEdge;
    forall u | UsesHoleEdge(steps, a, u)
      ensures u == t
    {
      SameHoleStep(steps, a, t, u);
      SameHoleStep(steps, a, u, t);
    }
  }

  /** Each edge of the rim is an edge of exactly one triangle. */
  lemma RimEdgeOnce(hole: Ring, rim: Ring, steps: Steps, tris: seq<Tri>, a: nat) returns (t: nat)
    requires Zipped(hole, rim, steps, tris) && a < |rim|
    ensures UsesRimEdge(steps, a, t) && tris[t].c == rim[a].1 && tris[t].b == rim[(a + 1) % |rim|].1
    ensures forall u :: UsesRimEdge(steps, a, u) ==> u == t
    ensures Apart(hole, rim) ==>
              forall u :: 0 <= u < |tris| ==> (Holds(tris[u], (rim[a].1, rim[Next(a, |rim|)].1)) <==> u == t)
  {
    hide HoleSteps, Next;
    t := FindRimStep(steps, a);
    OnlyRimStep(steps, a, t);
    Within(a, |rim|);
    assert tris[t] == StepTri(hole, rim, HoleSteps(steps[..t]), RimSteps(steps[..t]), steps[t]);
    if Apart(hole, rim) {
      forall u | 0 <= u < |tris|
        ensures Holds(tris[u], (rim[a].1, rim[Next(a, |rim|)].1)) <==> u == t
      {
        HoldsRimEdge(hole, rim, steps, tris, a, u);
      }
    }
  }

  lemma HoldsRimEdge(hole: Ring, rim: Ring, steps: Steps, tris: seq<Tri>, a: nat, u: nat)
    requires Zipped(hole, rim, steps, tris) && Apart(hole, rim) && a < |rim| && u < |tris|
    ensures Holds(tris[u], (rim[a].1, rim[Next(a, |rim|)].1)) <==> UsesRimEdge(steps, a, u)
  {
    EveryTriangleUsesAnEdge(hole, rim, steps, tris, u);
    Corners(hole, rim, steps, tris, u);
    hide HoleSteps;
  }

  lemma OnlyRimStep(steps: Steps, a: nat, t: nat)
    requires UsesRimEdge(steps, a, t)
    ensures forall u :: UsesRimEdge(steps, a, u) ==> u == t
  {
    hide UsesRimEdge;
    forall u | UsesRimEdge(steps, a, u)
      ensures u == t
    {
      SameRimStep(steps, a, t, u);
      SameRimStep(steps, a, u, t);
    }
  }

  /** Every triangle is one of those: it uses an edge of the hole's ring or of the rim. */
  lemma EveryTriangleUsesAnEdge(hole: Ring, rim: Ring, steps: Steps, tris: seq<Tri>, t: nat)
    requires Zipped(hole, rim, steps, tris) && t < |steps|
    ensures if steps[t] then HoleSteps(steps[..t]) < |hole| && UsesHoleEdge(steps, HoleSteps(steps[..t]), t)
            else RimSteps(steps[..t]) < |rim| && UsesRimEdge(steps, RimSteps(steps[..t]), t)
  {
    HoleStepsRise(steps, t + 1, |steps|);
    HoleStepsNext(steps, t);
    assert steps[..|steps|] == steps;
  }

  lemma SameHoleStep(steps: Steps, a: nat, t: nat, u: nat)
    requires UsesHoleEdge(steps, a, t) && UsesHoleEdge(steps, a, u)
    ensures u <= t
  {
    HoleStepsNext(steps, t);
    if t < u {
      HoleStepsRise(steps, t + 1, u);
    }
  }

  lemma SameRimStep(steps: Steps, a: nat, t: nat, u: nat)
    requires UsesRimEdge(steps, a, t) && UsesRimEdge(steps, a, u)
    ensures u <= t
  {
    HoleStepsNext(steps, t);
    if t < u {
      HoleStepsRise(steps, t + 1, u);
    }
  }

  // ---- Spokes ----

  /** All the points of one ring but its first lie between two neighbours of the other: those of the hole's
      past the rim's last, or those of the rim past the hole's last. */
  predicate Pinched(hole: Ring, rim: Ring)
    requires |hole| >= 2 && |rim| >= 2
  {
    || (hole[0].0 <= rim[0].0 && rim[|rim| - 1].0 < hole[1].0)
    || (rim[0].0 < hole[0].0 && hole[|hole| - 1].0 <= rim[1].0)
  }

  /** Triangle `u` lies on one side of spoke `t`. */
  predicate Beside(n: nat, t: nat, u: nat) {
    u == t || u + 1 == t || (t == 0 && u == n - 1)
  }

  /** The triangles that hold each spoke are the two beside it. */
  ghost predicate SpokesInTwo(hole: Ring, rim: Ring, steps: Steps, tris: seq<Tri>)
    requires hole != [] && rim != [] && |tris| == |steps|
  {
    forall t, u :: 0 <= t < |steps| && 0 <= u < |tris| ==>
      (Holds(tris[u], Spoke(hole, rim, steps, t)) <==> Beside(|steps|, t, u))
  }

  /** Of apart rings a triangle holds a spoke only as the one before its step or the one after. */
  lemma HoldsSpoke(hole: Ring, rim: Ring, steps: Steps, tris: seq<Tri>, t: nat, u: nat)
    requires Zipped(hole, rim, steps, tris) && Apart(hole, rim) && t < |steps| && u < |tris|
    ensures Holds(tris[u], Spoke(hole, rim, steps, t)) <==>
              Spoke(hole, rim, steps, u) == Spoke(hole, rim, steps, t)
                || Spoke(hole, rim, steps, u + 1) == Spoke(hole, rim, steps, t)
  {
    hide HoleSteps;
    HoleStepsNext(steps, u);
    assert tris[u] == StepTri(hole, rim, HoleSteps(steps[..u]), RimSteps(steps[..u]), steps[u]);
  }

  /** The ring moved on from nothing to all the way round. */
  predicate Round(a: nat, b: nat, n: nat) {
    a == 0 && b == n
  }

  lemma SamePlace(a: nat, b: nat, n: nat)
    requires a <= b <= n && n > 0 && a % n == b % n
    ensures a == b || Round(a, b, n)
  {
    if b < n {
      Within(a, n);
      Within(b, n);
    } else {
      WholeTurn(n);
      if a < n {
        Within(a, n);
      }
    }
  }

  /** Two spokes are the same only if between them one ring went all the way round and the other stood still. */
  lemma SpokesMeet(hole: Ring, rim: Ring, steps: Steps, tris: seq<Tri>, t: nat, u: nat)
    requires Zipped(hole, rim, steps, tris) && Apart(hole, rim) && t < u < |steps|
    requires Spoke(hole, rim, steps, t) == Spoke(hole, rim, steps, u)
    ensures var i, i' := HoleSteps(steps[..t]), HoleSteps(steps[..u]);
            var k, k' := RimSteps(steps[..t]), RimSteps(steps[..u]);
            (Round(i, i', |hole|) && k == k') || (Round(k, k', |rim|) && i == i')
  {
    hide HoleSteps;
    HoleStepsRise(steps, t, u);
    HoleStepsRise(steps, u, |steps|);
    assert steps[..|steps|] == steps;
    var i, i', k, k' := HoleSteps(steps[..t]), HoleSteps(steps[..u]), RimSteps(steps[..t]), RimSteps(steps[..u]);
    PlacesDiffer(hole, i % |hole|, i' % |hole|);
    PlacesDiffer(rim, k % |rim|, k' % |rim|);
    SamePlace(i, i', |hole|);
    SamePlace(k, k', |rim|);
  }

  lemma PlacesDiffer(ring: Ring, i: nat, j: nat)
    requires i < |ring| && j < |ring| && ring[i].1 == ring[j].1
    requires forall i, j :: 0 <= i < j < |ring| ==> ring[i].1 != ring[j].1
    ensures i == j
  {
  }

  /** What step `t` chose, from where it was. */
  lemma ChoiceAt(hole: Ring, rim: Ring, turn: real, steps: Steps, t: nat)
    requires hole != [] && rim != [] && Chosen(hole, rim, turn, steps) && t < |steps|
    ensures ChosenAt(hole, rim, turn, HoleSteps(steps[..t]), RimSteps(steps[..t]), steps[t])
  {
  }

  /** The hole's ring goes all the way round from step `t` to step `u`. */
  lemma HoleRoundIsPinched(hole: Ring, rim: Ring, turn: real, steps: Steps, t: nat, u: nat)
    requires |hole| >= 2 && |rim| >= 2 && Sorted(hole, turn) && Sorted(rim, turn)
    requires Chosen(hole, rim, turn, steps) && t < u < |steps| == |hole| + |rim|
    requires Round(HoleSteps(steps[..t]), HoleSteps(steps[..u]), |hole|) && RimSteps(steps[..t]) == RimSteps(steps[..u])
    ensures Pinched(hole, rim)
  {
    hide HoleSteps, Unwound, Chosen;
    UnwoundAtEnds(hole, turn);
    UnwoundAtEnds(rim, turn);
    HoleStepsRise(steps, t, u - 1);
    HoleStepsNext(steps, u - 1);
    ChoiceAt(hole, rim, turn, steps, u - 1);
    assert hole[0].0 + turn <= Unwound(rim, turn, t + 1);
    assert t == |rim| - 1;
    HoleStepsNext(steps, t - 1);
    ChoiceAt(hole, rim, turn, steps, t - 1);
  }

  lemma RimRoundIsPinched(hole: Ring, rim: Ring, turn: real, steps: Steps, t: nat, u: nat)
    requires |hole| >= 2 && |rim| >= 2 && Sorted(hole, turn) && Sorted(rim, turn)
    requires Chosen(hole, rim, turn, steps) && t < u < |steps| == |hole| + |rim|
    requires Round(RimSteps(steps[..t]), RimSteps(steps[..u]), |rim|) && HoleSteps(steps[..t]) == HoleSteps(steps[..u])
    ensures Pinched(hole, rim)
  {
    hide HoleSteps, Unwound, Chosen;
    UnwoundAtEnds(hole, turn);
    UnwoundAtEnds(rim, turn);
    HoleStepsRise(steps, t, u - 1);
    HoleStepsNext(steps, u - 1);
    ChoiceAt(hole, rim, turn, steps, u - 1);
    assert rim[0].0 + turn < Unwound(hole, turn, t + 1);
    assert t == |hole| - 1;
    HoleStepsNext(steps, t - 1);
    ChoiceAt(hole, rim, turn, steps, t - 1);
  }

  lemma UnwoundAtEnds(ring: Ring, turn: real)
    requires |ring| >= 2
    ensures forall i :: 0 <= i < |ring| ==> Unwound(ring, turn, i) == ring[i].0
    ensures Unwound(ring, turn, |ring|) == ring[0].0 + turn
  {
    forall i | 0 <= i < |ring|
      ensures i % |ring| == i
    {
      Within(i, |ring|);
    }
    WholeTurn(|ring|);
  }

  /** Pinched at the rim's last point: the rim's points come first, then the hole's whole ring, then the rim closes. */
  lemma {:induction false} RimFirst(hole: Ring, rim: Ring, turn: real, steps: Steps, t: nat)
    requires |hole| >= 2 && |rim| >= 2 && Sorted(hole, turn) && Sorted(rim, turn)
    requires Chosen(hole, rim, turn, steps) && |steps| == |hole| + |rim|
    requires hole[0].0 <= rim[0].0 && rim[|rim| - 1].0 < hole[1].0 && t < |hole| + |rim|
    ensures HoleSteps(steps[..t]) == if t < |rim| then 0 else t - (|rim| - 1)
  {
    hide HoleSteps, Unwound, Chosen;
    if t == 0 {
      NoSteps();
    } else {
      RimFirst(hole, rim, turn, steps, t - 1);
      UnwoundAtEnds(hole, turn);
      UnwoundAtEnds(rim, turn);
      HoleStepsNext(steps, t - 1);
      ChoiceAt(hole, rim, turn, steps, t - 1);
    }
  }

  lemma {:induction false} HoleFirst(hole: Ring, rim: Ring, turn: real, steps: Steps, t: nat)
    requires |hole| >= 2 && |rim| >= 2 && Sorted(hole, turn) && Sorted(rim, turn)
    requires Chosen(hole, rim, turn, steps) && |steps| == |hole| + |rim|
    requires rim[0].0 < hole[0].0 && hole[|hole| - 1].0 <= rim[1].0 && t < |hole| + |rim|
    ensures HoleSteps(steps[..t]) == if t < |hole| then t else |hole| - 1
  {
    hide HoleSteps, Unwound, Chosen;
    if t == 0 {
      NoSteps();
    } else {
      HoleFirst(hole, rim, turn, steps, t - 1);
      UnwoundAtEnds(hole, turn);
      UnwoundAtEnds(rim, turn);
      HoleStepsNext(steps, t - 1);
      ChoiceAt(hole, rim, turn, steps, t - 1);
    }
  }

  /** Two spokes that coincide, where the rings are pinched. */
  lemma PinchedMeets(hole: Ring, rim: Ring, turn: real, steps: Steps) returns (t: nat, u: nat)
    requires |hole| >= 3 && |rim| >= 3 && Sorted(hole, turn) && Sorted(rim, turn)
    requires Chosen(hole, rim, turn, steps) && |steps| == |hole| + |rim| && Pinched(hole, rim)
    ensures t < u < |steps| && !Beside(|steps|, t, u) && Spoke(hole, rim, steps, t) == Spoke(hole, rim, steps, u)
  {
    hide HoleSteps, Chosen;
    if hole[0].0 <= rim[0].0 {
      t, u := |rim| - 1, |rim| - 1 + |hole|;
      RimFirst(hole, rim, turn, steps, t);
      RimFirst(hole, rim, turn, steps, u);
    } else {
      t, u := |hole| - 1, |hole| - 1 + |rim|;
      HoleFirst(hole, rim, turn, steps, t);
      HoleFirst(hole, rim, turn, steps, u);
    }
    WholeTurn(|hole|);
    WholeTurn(|rim|);
  }

  /** Main result: of apart rings, each spoke is an edge of exactly the two triangles beside it, if and only if
      the rings are not pinched. */
  lemma SpokesInTwoIff(hole: Ring, rim: Ring, turn: real, steps: Steps, tris: seq<Tri>)
    requires Zipped(hole, rim, steps, tris) && Apart(hole, rim) && Sorted(hole, turn) && Sorted(rim, turn)
    requires Chosen(hole, rim, turn, steps)
    ensures SpokesInTwo(hole, rim, steps, tris) <==> !Pinched(hole, rim)
  {
    hide Apart, Sorted, Chosen, Holds, Pinched, Spoke, HoleSteps, Follows;
    SizesAre(hole, rim, steps, tris);
    if Pinched(hole, rim) {
      var t, u := PinchedMeets(hole, rim, turn, steps);
      HoldsSpoke(hole, rim, steps, tris, t, u);
      assert Holds(tris[u], Spoke(hole, rim, steps, t)) && !Beside(|steps|, t, u);
    } else {
      forall t, u | 0 <= t < |steps| && 0 <= u < |tris|
        ensures Holds(tris[u], Spoke(hole, rim, steps, t)) <==> Beside(|steps|, t, u)
      {
        HoldsSpoke(hole, rim, steps, tris, t, u);
        ClosesUp(hole, rim, steps, tris);
        if t != u {
          SpokesDiffer(hole, rim, turn, steps, tris, t, u);
        }
        var next := if u + 1 == |steps| then 0 else u + 1;
        if t != next {
          SpokesDiffer(hole, rim, turn, steps, tris, t, next);
        }
      }
    }
  }

  lemma SizesAre(hole: Ring, rim: Ring, steps: Steps, tris: seq<Tri>)
    requires Zipped(hole, rim, steps, tris) && Apart(hole, rim)
    ensures |tris| == |steps| == |hole| + |rim| && |hole| >= 3 && |rim| >= 3
  {
  }

  lemma ClosesUp(hole: Ring, rim: Ring, steps: Steps, tris: seq<Tri>)
    requires Zipped(hole, rim, steps, tris)
    ensures Spoke(hole, rim, steps, |steps|) == Spoke(hole, rim, steps, 0)
  {
    OneBand(hole, rim, steps, tris, 0);
  }

  lemma SpokesDiffer(hole: Ring, rim: Ring, turn: real, steps: Steps, tris: seq<Tri>, t: nat, u: nat)
    requires Zipped(hole, rim, steps, tris) && Apart(hole, rim) && Sorted(hole, turn) && Sorted(rim, turn)
    requires Chosen(hole, rim, turn, steps) && t < |steps| && u < |steps| && t != u && !Pinched(hole, rim)
    ensures Spoke(hole, rim, steps, t) != Spoke(hole, rim, steps, u)
  {
    hide Spoke, HoleSteps, Chosen, Sorted, Pinched;
    if Spoke(hole, rim, steps, t) == Spoke(hole, rim, steps, u) {
      var a, b := if t < u then t else u, if t < u then u else t;
      SpokesMeet(hole, rim, steps, tris, a, b);
      if RimSteps(steps[..a]) == RimSteps(steps[..b]) && Round(HoleSteps(steps[..a]), HoleSteps(steps[..b]), |hole|) {
        HoleRoundIsPinched(hole, rim, turn, steps, a, b);
      } else {
        RimRoundIsPinched(hole, rim, turn, steps, a, b);
      }
    }
  }

  /** The gap of the rim an angle lies in: after the rim's point `k`, up to the next. */
  predicate InGap(rim: Ring, k: nat, angle: real)
    requires k < |rim|
  {
    if k + 1 < |rim| then rim[k].0 < angle <= rim[k + 1].0 else rim[k].0 < angle || angle <= rim[0].0
  }

  /** All of the hole's points past its first lie in that gap. */
  predicate RestInGap(hole: Ring, rim: Ring, k: nat)
    requires k < |rim|
  {
    forall i :: 1 <= i < |hole| ==> InGap(rim, k, hole[i].0)
  }

  lemma PinchedInOneGap(hole: Ring, rim: Ring, turn: real) returns (k: nat)
    requires |hole| >= 2 && |rim| >= 2 && Sorted(hole, turn) && Sorted(rim, turn) && Pinched(hole, rim)
    ensures k < |rim| && RestInGap(hole, rim, k)
    ensures InGap(rim, k, hole[1].0) && InGap(rim, k, hole[|hole| - 1].0)
  {
    k := if hole[0].0 <= rim[0].0 then |rim| - 1 else 0;
    forall i | 1 <= i < |hole|
      ensures InGap(rim, k, hole[i].0)
    {
    }
  }

  /** Where the hole's second and last points lie in different gaps of the rim, each spoke is an edge of exactly
      the two triangles beside it. */
  lemma TwoGapsSpokesInTwo(hole: Ring, rim: Ring, turn: real, steps: Steps, tris: seq<Tri>)
    requires Zipped(hole, rim, steps, tris) && Apart(hole, rim) && Sorted(hole, turn) && Sorted(rim, turn)
    requires Chosen(hole, rim, turn, steps)
    requires forall k :: 0 <= k < |rim| ==> !(InGap(rim, k, hole[1].0) && InGap(rim, k, hole[|hole| - 1].0))
    ensures SpokesInTwo(hole, rim, steps, tris)
  {
    hide Sorted, Chosen, InGap, Follows;
    SpokesInTwoIff(hole, rim, turn, steps, tris);
    if Pinched(hole, rim) {
      var k := PinchedInOneGap(hole, rim, turn);
    }
  }

  /** Points all the way round at even angles, as a bowl's rim has. */
  ghost predicate Even(rim: Ring, turn: real)
    requires rim != []
  {
    forall k :: 0 <= k < |rim| ==> rim[k].0 == rim[0].0 + turn * (k as real / |rim| as real)
  }

  /** Around an even rim, where the hole's points past its first span more than one of its gaps, each spoke is an
      edge of exactly the two triangles beside it. */
  lemma EvenRimSpokesInTwo(hole: Ring, rim: Ring, turn: real, steps: Steps, tris: seq<Tri>)
    requires Zipped(hole, rim, steps, tris) && Apart(hole, rim) && Sorted(hole, turn) && Sorted(rim, turn)
    requires Chosen(hole, rim, turn, steps) && Even(rim, turn)
    requires hole[|hole| - 1].0 - hole[1].0 > turn / |rim| as real
    ensures SpokesInTwo(hole, rim, steps, tris)
  {
    SpokesInTwoIff(hole, rim, turn, steps, tris);
    EvenGaps(rim, turn);
  }

  lemma EvenGaps(rim: Ring, turn: real)
    requires |rim| >= 2 && Even(rim, turn) && Sorted(rim, turn)
    ensures rim[1].0 - rim[0].0 == turn / |rim| as real
    ensures rim[0].0 + turn - rim[|rim| - 1].0 == turn / |rim| as real
  {
    var n := |rim| as real;
    var m := (|rim| - 1) as real;
    assert rim[1].0 == rim[0].0 + turn * (1.0 / n);
    assert rim[|rim| - 1].0 == rim[0].0 + turn * (m / n);
    assert m / n == 1.0 - 1.0 / n;
    assert turn * (1.0 - 1.0 / n) == turn - turn * (1.0 / n);
    assert turn * (1.0 / n) == turn / n;
  }

  /** Rings that are pinched: the hole's second and third points lie past all of the rim's. */
  lemma SomeArePinched()
    ensures var hole, rim := [(0.0, 0), (3.0, 1), (4.0, 2)], [(0.0, 3), (1.0, 4), (2.0, 5)];
            Sorted(hole, 6.0) && Sorted(rim, 6.0) && Apart(hole, rim) && Pinched(hole, rim)
  {
  }
}
