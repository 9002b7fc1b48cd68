/** A critically damped spring in closed form, one coordinate at a time: the eased clocks and the
    chase camera both follow it. */
module Springs {
  import opened Exponential

  /** What is left of a motion of rate `w` after `t` seconds. */
  function Decay(e: real -> real, w: real, t: real): real {
    e(-w * t)
  }

  function Push(gap: real, pace: real, w: real): real {
    pace + gap * w
  }

  /** The gap after `t` seconds, by which time `decay` is left. */
  function Closing(gap: real, j: real, t: real, decay: real): real {
    (gap + j * t) * decay
  }

  /** Its rate of change. */
  function Slowing(pace: real, j: real, w: real, t: real, decay: real): real {
    (pace - j * (w * t)) * decay
  }

  /** Gap and rate `t` seconds on. */
  function Step(e: real -> real, w: real, gap: real, pace: real, t: real): (real, real) {
    var j := Push(gap, pace, w);
    (Closing(gap, j, t, Decay(e, w, t)), Slowing(pace, j, w, t, Decay(e, w, t)))
  }

  lemma DecaySum(e: real -> real, w: real, t: real, s: real)
    requires IsExp(e)
    ensures Decay(e, w, t + s) == Decay(e, w, t) * Decay(e, w, s)
  {
    assert -w * (t + s) == -w * t + -w * s;
    Sum(e, -w * t, -w * s);
  }

  lemma DecayStart(e: real -> real, w: real)
    requires IsExp(e)
    ensures Decay(e, w, 0.0) == 1.0
  {
    assert -w * 0.0 == 0.0;
  }

  /** The closed form is a flow: `s` seconds after `t` seconds is `t + s` seconds. */
  lemma Flow(e: real -> real, w: real, gap: real, pace: real, t: real, s: real)
    requires IsExp(e)
    ensures var m := Step(e, w, gap, pace, t);
            Step(e, w, m.0, m.1, s) == Step(e, w, gap, pace, t + s)
  {
    DecaySum(e, w, t, s);
    hide IsExp, Decay;
    var m := Step(e, w, gap, pace, t);
    FlowAlgebra(gap, pace, Push(gap, pace, w), w, t, s, Decay(e, w, t), Decay(e, w, s), m.0, m.1, t + s,
                Decay(e, w, t + s));
  }

  lemma PushAlgebra(g: real, p: real, j: real, w: real, t: real, et: real, g1: real, p1: real)
    requires j == p + g * w && g1 == (g + j * t) * et && p1 == (p - j * (w * t)) * et
    ensures p1 + g1 * w == j * et
  {
    assert g1 * w == (g * w + j * (w * t)) * et;
    assert (p - j * (w * t)) * et + (g * w + j * (w * t)) * et == (p + g * w) * et;
  }

  lemma FlowAlgebra(g: real, p: real, j: real, w: real, t: real, s: real, et: real, es: real,
                    g1: real, p1: real, u: real, eu: real)
    requires j == Push(g, p, w) && u == t + s && eu == et * es
    requires g1 == Closing(g, j, t, et) && p1 == Slowing(p, j, w, t, et)
    ensures Closing(g1, Push(g1, p1, w), s, es) == Closing(g, j, u, eu)
    ensures Slowing(p1, Push(g1, p1, w), w, s, es) == Slowing(p, j, w, u, eu)
  {
    var j1 := Push(g1, p1, w);
    PushAlgebra(g, p, j, w, t, et, g1, p1);
    assert g1 + j1 * s == (g + j * u) * et by {
      assert j1 * s == (j * s) * et;
    }
    assert p1 - j1 * (w * s) == (p - j * (w * u)) * et by {
      assert j1 * (w * s) == (j * (w * s)) * et;
      assert j * (w * u) == j * (w * t) + j * (w * s);
    }
    Reassociate(g + j * u, et, es);
    Reassociate(p - j * (w * u), et, es);
  }

  lemma Reassociate(a: real, b: real, c: real)
    ensures a * b * c == a * (b * c)
  {
  }

  /** No time, no motion. */
  lemma StepStart(e: real -> real, w: real, gap: real, pace: real)
    requires IsExp(e)
    ensures Step(e, w, gap, pace, 0.0) == (gap, pace)
  {
    DecayStart(e, w);
  }
}
