/** How the chart feeds the curve into the sampler: the X side is sampled
    over `t` in `[-1, 0]` with `priceImpactX`, the Y side over `t` in `[0, 1]`
    with `priceImpactY`, both at the sampler's default resolution. */
module Chart {
  import opened Wrappers
  import opened Curve
  import opened Sampler

  /** The sampler's default number of steps. */
  const DefaultSteps: nat := 1000

  /** The callback `(x) => priceImpactX(x, parameters)` as the sampler sees
      it: the exact value where every divisor is non-zero, 0 at the
      infinite-slope limit `t = -1`, and `None` for the NaN and infinite
      results the range filter rejects. The centre gives 1 whenever the
      prices and `x0` are non-zero; for valid parameters `t = -1` gives 0,
      or NaN (`None`) when the side is fully linear. */
  function ImpactXAt(p: Params): (f: real -> Option<real>)
    ensures p.x0 != 0.0 && p.px != 0.0 && p.py != 0.0 ==> f(0.0) == Some(1.0)
    ensures Valid(p) ==> f(-1.0) == if p.cx == 1.0 then None else Some(0.0)
  {
    assert ScaledX(-1.0, p) == 0.0 && ScaledX(0.0, p) == p.x0;
    t => if DefinedX(t, p) then Some(PriceImpactX(t, p))
         else if LimitX(t, p) then Some(0.0)
         else None
  }

  /** The callback `(x) => priceImpactY(x, parameters)`, with the limit at
      `t = 1`. */
  function ImpactYAt(p: Params): (f: real -> Option<real>)
    ensures p.y0 != 0.0 && p.px != 0.0 && p.py != 0.0 ==> f(0.0) == Some(1.0)
    ensures Valid(p) ==> f(1.0) == if p.cy == 1.0 then None else Some(0.0)
  {
    assert ScaledY(1.0, p) == 0.0 && ScaledY(0.0, p) == p.y0;
    t => if DefinedY(t, p) then Some(PriceImpactY(t, p))
         else if LimitY(t, p) then Some(0.0)
         else None
  }

  /** 1 when the end point of a side is not plotted (a fully linear side,
      where the limit is NaN), 0 when it is. */
  function EdgeDropped(c: real): nat
  {
    if c == 1.0 then 1 else 0
  }

  /** The two series the chart draws. */
  method ChartSeries(p: Params) returns (xSeries: seq<(real, real)>, ySeries: seq<(real, real)>)
    ensures xSeries == Series(ImpactXAt(p), -1.0, 0.0, DefaultSteps, DefaultSteps + 1)
    ensures ySeries == Series(ImpactYAt(p), 0.0, 1.0, DefaultSteps, DefaultSteps + 1)
    ensures Valid(p) ==> (|xSeries| == DefaultSteps + 1 - EdgeDropped(p.cx)
                       && |ySeries| == DefaultSteps + 1 - EdgeDropped(p.cy))
    ensures Valid(p) ==> xSeries[|xSeries| - 1] == (0.0, 1.0) && ySeries[0] == (0.0, 1.0)
    ensures Valid(p) && p.cx != 1.0 ==> xSeries[0] == (-1.0, 0.0)
    ensures Valid(p) && p.cy != 1.0 ==> ySeries[|ySeries| - 1] == (1.0, 0.0)
  {
    xSeries := GenerateSeriesData(ImpactXAt(p), -1.0, 0.0, DefaultSteps);
    ySeries := GenerateSeriesData(ImpactYAt(p), 0.0, 1.0, DefaultSteps);
    if Valid(p) {
      XSeriesShape(p, DefaultSteps);
      YSeriesShape(p, DefaultSteps);
    }
  }

  /** The Y-side callback is the X-side callback of the swapped pool,
      mirrored in `t`. */
  lemma ImpactMirror(p: Params, t: real)
    ensures ImpactYAt(p)(t) == ImpactXAt(Swap(p))(-t)
  {
    PriceImpactYMirror(t, p);
  }

  // ---------------------------------------------------------------------------
  // Sample positions on a unit interval

  /** `i` steps of `1 / steps` stay in `[0, 1]`, reaching 0 only at `i = 0`
      and 1 only at `i = steps`. */
  lemma UnitStep(steps: nat, i: nat)
    requires steps > 0 && i <= steps
    ensures 0.0 <= (i as real) * (1.0 / (steps as real)) <= 1.0
    ensures (i as real) * (1.0 / (steps as real)) == 0.0 <==> i == 0
    ensures (i as real) * (1.0 / (steps as real)) == 1.0 <==> i == steps
  {
    var u := 1.0 / (steps as real);
    assert u > 0.0;
    assert (steps as real) * u == 1.0;
    assert (steps as real) * u - (i as real) * u == ((steps - i) as real) * u;
    if i < steps {
      assert ((steps - i) as real) * u > 0.0;
    }
    if i > 0 {
      assert (i as real) * u > 0.0;
    }
  }

  /** The X side's positions are `-1 + i / steps`. */
  lemma XCandidate(steps: nat, i: nat)
    requires steps > 0
    ensures Candidate(-1.0, 0.0, steps, i) == -1.0 + (i as real) * (1.0 / (steps as real))
  {
  }

  /** The Y side's positions are `i / steps`. */
  lemma YCandidate(steps: nat, i: nat)
    requires steps > 0
    ensures Candidate(0.0, 1.0, steps, i) == (i as real) * (1.0 / (steps as real))
  {
  }

  /** The `k`-th Y-side position is the negated `(steps - k)`-th X-side one. */
  lemma MirrorPosition(steps: nat, k: nat)
    requires steps > 0 && k <= steps
    ensures Candidate(0.0, 1.0, steps, k) == -Candidate(-1.0, 0.0, steps, steps - k)
  {
    YCandidate(steps, k);
    XCandidate(steps, steps - k);
    var u := 1.0 / (steps as real);
    assert (steps as real) * u == 1.0;
    assert ((steps - k) as real) * u == (steps as real) * u - (k as real) * u;
  }

  // ---------------------------------------------------------------------------
  // The shape of the two series

  /** Under valid parameters the X-side callback accepts every position but
      `t = -1` with a value in `(0, 1]`, and accepts `t = -1` itself, with
      value 0, unless the side is fully linear. */
  lemma XAccepts(p: Params, steps: nat, i: nat)
    requires Valid(p) && steps > 0 && i <= steps
    ensures InRange(ImpactXAt(p)(Candidate(-1.0, 0.0, steps, i))) <==> i >= EdgeDropped(p.cx)
    ensures i > 0 ==> (-1.0 < Candidate(-1.0, 0.0, steps, i) <= 0.0
                       && DefinedX(Candidate(-1.0, 0.0, steps, i), p))
    ensures i == 0 ==> (Candidate(-1.0, 0.0, steps, i) == -1.0
                        && (p.cx != 1.0 ==> ImpactXAt(p)(-1.0) == Some(0.0)))
    ensures i == steps ==> Candidate(-1.0, 0.0, steps, i) == 0.0
  {
    var t := Candidate(-1.0, 0.0, steps, i);
    UnitStep(steps, i);
    XCandidate(steps, i);
    DefinedXIff(t, p);
    if i > 0 {
      PriceImpactXBounds(t, p);
    } else {
      assert ScaledX(t, p) == 0.0;
    }
  }

  /** Under valid parameters the Y-side callback accepts every position but
      `t = 1` with a value in `(0, 1]`, and accepts `t = 1` itself, with
      value 0, unless the side is fully linear. */
  lemma YAccepts(p: Params, steps: nat, i: nat)
    requires Valid(p) && steps > 0 && i <= steps
    ensures InRange(ImpactYAt(p)(Candidate(0.0, 1.0, steps, i))) <==> i + EdgeDropped(p.cy) <= steps
    ensures i < steps ==> (0.0 <= Candidate(0.0, 1.0, steps, i) < 1.0
                           && DefinedY(Candidate(0.0, 1.0, steps, i), p))
    ensures i == steps ==> (Candidate(0.0, 1.0, steps, i) == 1.0
                            && (p.cy != 1.0 ==> ImpactYAt(p)(1.0) == Some(0.0)))
    ensures i == 0 ==> Candidate(0.0, 1.0, steps, i) == 0.0
  {
    var t := Candidate(0.0, 1.0, steps, i);
    UnitStep(steps, i);
    YCandidate(steps, i);
    DefinedYIff(t, p);
    if i < steps {
      PriceImpactYBounds(t, p);
    } else {
      assert ScaledY(t, p) == 0.0;
    }
  }

  /** For valid parameters the X series holds, in order, the points of every
      position from `t = -1` (or from the next one, when the side is fully
      linear, where the limit at `t = -1` is NaN) up to the centre. */
  lemma XSeriesPoints(p: Params, steps: nat)
    requires Valid(p) && steps > 0
    ensures Kept(ImpactXAt(p), -1.0, 0.0, steps, steps + 1) == Range(EdgeDropped(p.cx), steps + 1)
    ensures var xs := Series(ImpactXAt(p), -1.0, 0.0, steps, steps + 1);
      && |xs| == steps + 1 - EdgeDropped(p.cx)
      && (forall k :: 0 <= k < |xs| ==>
            InRange(ImpactXAt(p)(Candidate(-1.0, 0.0, steps, k + EdgeDropped(p.cx))))
            && xs[k] == Point(ImpactXAt(p), -1.0, 0.0, steps, k + EdgeDropped(p.cx)))
  {
    var fn := ImpactXAt(p);
    var d := EdgeDropped(p.cx);
    forall i: nat | i < steps + 1
      ensures InRange(fn(Candidate(-1.0, 0.0, steps, i))) <==> d <= i < steps + 1
    {
      XAccepts(p, steps, i);
    }
    KeptWindow(fn, -1.0, 0.0, steps, d, steps + 1, steps + 1);
    SeriesIsKeptPoints(fn, -1.0, 0.0, steps, steps + 1);
  }

  /** What those points are: `(-1, 0)` at the infinite-slope limit, the
      exact `PriceImpactX` at every position inside `(-1, 0]`, and the centre
      `(0, 1)` last. */
  lemma XSeriesShape(p: Params, steps: nat)
    requires Valid(p) && steps > 0
    ensures var xs := Series(ImpactXAt(p), -1.0, 0.0, steps, steps + 1);
      && |xs| == steps + 1 - EdgeDropped(p.cx)
      && (forall i :: 1 <= i <= steps ==>
            var t := Candidate(-1.0, 0.0, steps, i);
            -1.0 < t <= 0.0 && DefinedX(t, p) && xs[i - EdgeDropped(p.cx)] == (t, PriceImpactX(t, p)))
      && (p.cx != 1.0 ==> xs[0] == (-1.0, 0.0))
      && xs[|xs| - 1] == (0.0, 1.0)
  {
    XSeriesPoints(p, steps);
    forall i | 1 <= i <= steps
      ensures -1.0 < Candidate(-1.0, 0.0, steps, i) <= 0.0 && DefinedX(Candidate(-1.0, 0.0, steps, i), p)
    {
      XAccepts(p, steps, i);
    }
    XAccepts(p, steps, 0);
    XAccepts(p, steps, steps);
  }

  /** For valid parameters the Y series holds, in order, the points of every
      position from the centre up to `t = 1` (or to the one before, when the
      side is fully linear). */
  lemma YSeriesPoints(p: Params, steps: nat)
    requires Valid(p) && steps > 0
    ensures Kept(ImpactYAt(p), 0.0, 1.0, steps, steps + 1) == Range(0, steps + 1 - EdgeDropped(p.cy))
    ensures var ys := Series(ImpactYAt(p), 0.0, 1.0, steps, steps + 1);
      && |ys| == steps + 1 - EdgeDropped(p.cy)
      && (forall k :: 0 <= k < |ys| ==>
            InRange(ImpactYAt(p)(Candidate(0.0, 1.0, steps, k)))
            && ys[k] == Point(ImpactYAt(p), 0.0, 1.0, steps, k))
  {
    var fn := ImpactYAt(p);
    var e := steps + 1 - EdgeDropped(p.cy);
    forall i: nat | i < steps + 1
      ensures InRange(fn(Candidate(0.0, 1.0, steps, i))) <==> 0 <= i < e
    {
      YAccepts(p, steps, i);
    }
    KeptWindow(fn, 0.0, 1.0, steps, 0, e, steps + 1);
    SeriesIsKeptPoints(fn, 0.0, 1.0, steps, steps + 1);
  }

  /** What those points are: the centre `(0, 1)` first, the exact
      `PriceImpactY` at every position inside `[0, 1)`, and `(1, 0)` at the
      infinite-slope limit. */
  lemma YSeriesShape(p: Params, steps: nat)
    requires Valid(p) && steps > 0
    ensures var ys := Series(ImpactYAt(p), 0.0, 1.0, steps, steps + 1);
      && |ys| == steps + 1 - EdgeDropped(p.cy)
      && (forall i :: 0 <= i < steps ==>
            var t := Candidate(0.0, 1.0, steps, i);
            0.0 <= t < 1.0 && DefinedY(t, p) && ys[i] == (t, PriceImpactY(t, p)))
      && (p.cy != 1.0 ==> ys[steps] == (1.0, 0.0))
      && ys[0] == (0.0, 1.0)
  {
    YSeriesPoints(p, steps);
    forall i | 0 <= i < steps
      ensures 0.0 <= Candidate(0.0, 1.0, steps, i) < 1.0 && DefinedY(Candidate(0.0, 1.0, steps, i), p)
    {
      YAccepts(p, steps, i);
    }
    YAccepts(p, steps, 0);
    YAccepts(p, steps, steps);
  }

  /** The Y series is the X series of the swapped pool read backwards, with
      positions negated and values unchanged. */
  lemma SeriesMirror(p: Params, steps: nat)
    requires Valid(p) && steps > 0
    ensures var ys := Series(ImpactYAt(p), 0.0, 1.0, steps, steps + 1);
            var xs := Series(ImpactXAt(Swap(p)), -1.0, 0.0, steps, steps + 1);
      && |ys| == |xs|
      && forall k :: 0 <= k < |ys| ==>
           ys[k].0 == -xs[|xs| - 1 - k].0 && ys[k].1 == xs[|xs| - 1 - k].1
  {
    var ys := Series(ImpactYAt(p), 0.0, 1.0, steps, steps + 1);
    var xs := Series(ImpactXAt(Swap(p)), -1.0, 0.0, steps, steps + 1);
    MirrorElement(p, steps, 0);
    forall k | 0 <= k < |ys|
      ensures ys[k].0 == -xs[|xs| - 1 - k].0 && ys[k].1 == xs[|xs| - 1 - k].1
    {
      MirrorElement(p, steps, k);
    }
  }

  /** The `k`-th point of the Y series against the `k`-th last point of the
      swapped pool's X series. */
  lemma MirrorElement(p: Params, steps: nat, k: nat)
    requires Valid(p) && steps > 0 && k < steps + 1 - EdgeDropped(p.cy)
    ensures var ys := Series(ImpactYAt(p), 0.0, 1.0, steps, steps + 1);
            var xs := Series(ImpactXAt(Swap(p)), -1.0, 0.0, steps, steps + 1);
      && |ys| == |xs| == steps + 1 - EdgeDropped(p.cy)
      && ys[k].0 == -xs[|xs| - 1 - k].0 && ys[k].1 == xs[|xs| - 1 - k].1
  {
    var ys := Series(ImpactYAt(p), 0.0, 1.0, steps, steps + 1);
    var xs := Series(ImpactXAt(Swap(p)), -1.0, 0.0, steps, steps + 1);
    YSeriesPoints(p, steps);
    XSeriesPoints(Swap(p), steps);
    var m := |xs| - 1 - k;
    assert m + EdgeDropped(Swap(p).cx) == steps - k;
    assert ys[k] == Point(ImpactYAt(p), 0.0, 1.0, steps, k);
    MirrorPoint(p, steps, k);
    assert xs[m] == Point(ImpactXAt(Swap(p)), -1.0, 0.0, steps, steps - k);
  }

  /** An accepted Y-side sample and the mirrored X-side sample of the swapped
      pool: negated positions, equal values. */
  lemma MirrorPoint(p: Params, steps: nat, k: nat)
    requires steps > 0 && k <= steps && InRange(ImpactYAt(p)(Candidate(0.0, 1.0, steps, k)))
    ensures InRange(ImpactXAt(Swap(p))(Candidate(-1.0, 0.0, steps, steps - k)))
    ensures Point(ImpactYAt(p), 0.0, 1.0, steps, k).0
         == -Point(ImpactXAt(Swap(p)), -1.0, 0.0, steps, steps - k).0
    ensures Point(ImpactYAt(p), 0.0, 1.0, steps, k).1
         == Point(ImpactXAt(Swap(p)), -1.0, 0.0, steps, steps - k).1
  {
    MirrorPosition(steps, k);
    ImpactMirror(p, Candidate(0.0, 1.0, steps, k));
  }

  // ---------------------------------------------------------------------------
  // A worked example

  /** The chart's own pool (`x0 = 5`, `y0 = 10`, `px = 2`, `py = 1`) with the
      X-side concentration at 0, sampled in 4 steps: the values fall from 1
      at the centre to 0.5625, 0.25 and 0.0625 as `t` moves to -0.25, -0.5
      and -0.75, and the infinite-slope limit at `t = -1` is plotted with
      value 0 (the chart labels each point with `1 - value`). */
  lemma FourStepExample(p: Params)
    requires p == Params(2.0, 1.0, 5.0, 10.0, 0.0, 0.0)
    ensures Series(ImpactXAt(p), -1.0, 0.0, 4, 5)
         == [(-1.0, 0.0), (-0.75, 0.0625), (-0.5, 0.25), (-0.25, 0.5625), (0.0, 1.0)]
  {
    ExamplePoint(p, 1, -0.75, 0.0625);
    ExamplePoint(p, 2, -0.5, 0.25);
    ExamplePoint(p, 3, -0.25, 0.5625);
    ExampleCallback(p, ImpactXAt(p));
  }

  /** The example pool's callback at the five positions of the sweep. */
  lemma ExampleCallback(p: Params, fn: real -> Option<real>)
    requires Valid(p) && p.cx == 0.0 && fn == ImpactXAt(p)
    requires DefinedX(-0.75, p) && PriceImpactX(-0.75, p) == 0.0625
    requires DefinedX(-0.5, p) && PriceImpactX(-0.5, p) == 0.25
    requires DefinedX(-0.25, p) && PriceImpactX(-0.25, p) == 0.5625
    ensures Series(fn, -1.0, 0.0, 4, 5)
         == [(-1.0, 0.0), (-0.75, 0.0625), (-0.5, 0.25), (-0.25, 0.5625), (0.0, 1.0)]
  {
    FourStepSeries(fn, 0.0625, 0.25, 0.5625);
  }

  /** One interior position and value of the four-step example. */
  lemma ExamplePoint(p: Params, i: nat, t: real, v: real)
    requires p == Params(2.0, 1.0, 5.0, 10.0, 0.0, 0.0)
    requires 1 <= i <= 3 && t == -1.0 + (i as real) * 0.25 && v == (t + 1.0) * (t + 1.0)
    ensures DefinedX(t, p) && PriceImpactX(t, p) == v
  {
    var s := ScaledX(t, p);
    assert s == (t + 1.0) * 5.0;
    assert 5.0 / s == 1.0 / (t + 1.0);
    assert Square(5.0 / s) * v == 1.0;
  }

  /** Any callback that gives 0 at `t = -1`, values in range at the next
      three positions of a four-step sweep over `[-1, 0]` and 1 at the
      centre yields these five points. */
  lemma FourStepSeries(fn: real -> Option<real>, v1: real, v2: real, v3: real)
    requires fn(-1.0) == Some(0.0)
    requires fn(-0.75) == Some(v1) && 0.0 <= v1 <= 1.0
    requires fn(-0.5) == Some(v2) && 0.0 <= v2 <= 1.0
    requires fn(-0.25) == Some(v3) && 0.0 <= v3 <= 1.0
    requires fn(0.0) == Some(1.0)
    ensures Series(fn, -1.0, 0.0, 4, 5) == [(-1.0, 0.0), (-0.75, v1), (-0.5, v2), (-0.25, v3), (0.0, 1.0)]
  {
    assert Candidate(-1.0, 0.0, 4, 0) == -1.0;
    assert Candidate(-1.0, 0.0, 4, 1) == -0.75;
    assert Candidate(-1.0, 0.0, 4, 2) == -0.5;
    assert Candidate(-1.0, 0.0, 4, 3) == -0.25;
    assert Candidate(-1.0, 0.0, 4, 4) == 0.0;
  }
}
