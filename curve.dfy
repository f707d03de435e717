/** The bonding-curve arithmetic of the price-impact chart: the invariant's
    implied counter-reserve `F`, its slope `Dydx`, the two normalised
    price-impact functions and the radicand of the slope's inverse.
    JavaScript numbers are modelled as exact reals; every division carries a
    precondition that its divisor is non-zero. */
module Curve {

  /** The pool parameters the chart passes around (reserves at the centre
      point, reference prices, and one concentration per side). */
  datatype Params = Params(px: real, py: real, x0: real, y0: real, cx: real, cy: real)

  /** The ranges the chart's parameters are meant to lie in. */
  predicate Valid(p: Params)
  {
    p.x0 > 0.0 && p.y0 > 0.0 && p.px > 0.0 && p.py > 0.0
    && 0.0 <= p.cx <= 1.0 && 0.0 <= p.cy <= 1.0
  }

  /** The same pool seen from the other asset: X and Y trade places. */
  function Swap(p: Params): (q: Params)
    ensures Valid(p) <==> Valid(q)
  {
    Params(p.py, p.px, p.y0, p.x0, p.cy, p.cx)
  }

  /** Counter-reserve implied by the invariant when the driving reserve is `x`. */
  function F(x: real, x0: real, y0: real, px: real, py: real, c: real): (y: real)
    requires x != 0.0 && py != 0.0
    ensures x == x0 ==> y == y0
  {
    var inner := c + (1.0 - c) * (x0 / x);
    y0 + (px / py) * (x0 - x) * inner
  }

  /** `r ** 2`. */
  function Square(r: real): real
  {
    r * r
  }

  /** The concentration-weighted factor of the slope at reserve `x`:
      `c` blended with the squared ratio `(x0 / x) ** 2`. */
  function Blend(x: real, x0: real, c: real): real
    requires x != 0.0
  {
    c + (1.0 - c) * Square(x0 / x)
  }

  /** Marginal price of the curve at reserve level `x`. */
  function Dydx(x: real, px: real, py: real, x0: real, c: real): (d: real)
    requires x != 0.0 && py != 0.0
    ensures x == x0 ==> d == -(px / py)
    ensures px / py > 0.0 && x0 != 0.0 && 0.0 <= c <= 1.0 ==> d < 0.0
  {
    var d := -(px / py) * Blend(x, x0, c);
    assert px / py > 0.0 && x0 != 0.0 && 0.0 <= c <= 1.0 ==> d < 0.0 by {
      if px / py > 0.0 && x0 != 0.0 && 0.0 <= c <= 1.0 {
        BlendPositive(c, x0 / x);
        MulPos(px / py, Blend(x, x0, c));
      }
    }
    d
  }

  /** Reserve level of the X side at normalised position `t` (t in [-1, 0]). */
  function ScaledX(t: real, p: Params): real
  {
    (t + 1.0) * p.x0
  }

  /** Reserve level of the Y side at normalised position `t` (t in [0, 1]). */
  function ScaledY(t: real, p: Params): real
  {
    (1.0 - t) * p.y0
  }

  /** Whether every divisor met while evaluating `PriceImpactX` is non-zero. */
  predicate DefinedX(t: real, p: Params)
  {
    ScaledX(t, p) != 0.0 && p.py != 0.0 && Dydx(ScaledX(t, p), p.px, p.py, p.x0, p.cx) != 0.0
  }

  /** Whether every divisor met while evaluating `PriceImpactY` is non-zero. */
  predicate DefinedY(t: real, p: Params)
  {
    ScaledY(t, p) != 0.0 && p.px != 0.0 && Dydx(ScaledY(t, p), p.py, p.px, p.y0, p.cy) != 0.0
  }

  /** Where the X side's scaled reserve is exactly 0 (`t = -1`), JavaScript's
      `x0 / 0` is infinite, the slope is `-Infinity`, and `priceImpactX` evaluates to
      (signed) zero. It is NaN instead when the concentration is 1
      (`0 * Infinity`) or when `x0`, `px` or `py` is 0. */
  predicate LimitX(t: real, p: Params): (b: bool)
    ensures b ==> !DefinedX(t, p)
    ensures Valid(p) ==> (b <==> t == -1.0 && p.cx != 1.0)
  {
    var b := ScaledX(t, p) == 0.0 && p.x0 != 0.0 && p.px != 0.0 && p.py != 0.0 && p.cx != 1.0;
    assert Valid(p) && t != -1.0 ==> ScaledX(t, p) != 0.0 by {
      if Valid(p) && t != -1.0 {
        MulNonzero(t + 1.0, p.x0);
      }
    }
    b
  }

  /** The same limit on the Y side (`t = 1`). */
  predicate LimitY(t: real, p: Params): (b: bool)
    ensures b ==> !DefinedY(t, p)
    ensures Valid(p) ==> (b <==> t == 1.0 && p.cy != 1.0)
  {
    var b := ScaledY(t, p) == 0.0 && p.y0 != 0.0 && p.py != 0.0 && p.px != 0.0 && p.cy != 1.0;
    assert Valid(p) && t != 1.0 ==> ScaledY(t, p) != 0.0 by {
      if Valid(p) && t != 1.0 {
        MulNonzero(1.0 - t, p.y0);
      }
    }
    b
  }

  /** Ratio of the reference price to the local marginal price on the X side.
      It is 1 at the centre; the chart displays `1 - value` as the impact. */
  function PriceImpactX(t: real, p: Params): (v: real)
    requires DefinedX(t, p)
    ensures t == 0.0 ==> v == 1.0
  {
    var scaledX := ScaledX(t, p);
    var dydxVal := Dydx(scaledX, p.px, p.py, p.x0, p.cx);
    p.px / p.py / -dydxVal
  }

  /** Ratio of the reference price to the local marginal price on the Y side. */
  function PriceImpactY(t: real, p: Params): (v: real)
    requires DefinedY(t, p)
    ensures t == 0.0 ==> v == 1.0
  {
    var scaledX := ScaledY(t, p);
    var dydxVal := Dydx(scaledX, p.py, p.px, p.y0, p.cy);
    p.py / p.px / -dydxVal
  }

  /** The square of `x0 / x` that `calculateX` takes the root of, for a
      target slope `slope`; `calculateX` returns `x0 / sqrt(radicand)`. The
      radicand `r` is the squared ratio at which the slope formula of `dydx`
      gives back `slope`. */
  function CalculateXRadicand(slope: real, px: real, py: real, c: real): (r: real)
    requires px != 0.0 && c != 1.0
    ensures py != 0.0 ==> -(px / py) * (c + (1.0 - c) * r) == slope
  {
    var numerator := (py / px) * -slope - c;
    var denominator := 1.0 - c;
    var r := numerator / denominator;
    assert py != 0.0 ==> -(px / py) * (c + (1.0 - c) * r) == slope by {
      if py != 0.0 {
        ReciprocalRatio(px, py);
        RescaleAlgebra(px / py, py / px, slope, c, r);
      }
    }
    r
  }

  // ---------------------------------------------------------------------------
  // The implied reserve and its slope

  /** Exact secant of `F`: the difference of two implied reserves is the
      difference of the driving reserves times the blend factor taken at the
      product of the two ratios `x0/a` and `x0/b`. */
  lemma FSecant(a: real, b: real, x0: real, y0: real, px: real, py: real, c: real)
    requires a != 0.0 && b != 0.0 && py != 0.0
    ensures F(a, x0, y0, px, py, c) - F(b, x0, y0, px, py, c)
         == -(px / py) * (c + (1.0 - c) * ((x0 / a) * (x0 / b))) * (a - b)
  {
    SecantAlgebra(a, b, x0, px / py, c, x0 / a, x0 / b);
  }

  /** `Dydx` is the derivative of `F`: between two positive reserves the
      secant slope of `F` lies between the slopes `Dydx` gives at its ends,
      so `F` is convex and strictly decreasing there, with tangent `Dydx`. */
  lemma {:induction false} DydxBracketsSecant(a: real, b: real, x0: real, y0: real, px: real, py: real, c: real)
    requires 0.0 < a < b && py != 0.0 && px / py > 0.0 && x0 > 0.0 && 0.0 <= c <= 1.0
    ensures Dydx(a, px, py, x0, c)
         <= (F(b, x0, y0, px, py, c) - F(a, x0, y0, px, py, c)) / (b - a)
         <= Dydx(b, px, py, x0, c)
    ensures F(b, x0, y0, px, py, c) < F(a, x0, y0, px, py, c)
  {
    var fa, fb := F(a, x0, y0, px, py, c), F(b, x0, y0, px, py, c);
    assert Dydx(a, px, py, x0, c) <= (fb - fa) / (b - a) by {
      SecantFacts(a, b, x0, y0, px, py, c);
    }
    assert (fb - fa) / (b - a) <= Dydx(b, px, py, x0, c) by {
      SecantFacts(a, b, x0, y0, px, py, c);
    }
    assert fb < fa by {
      SecantFacts(a, b, x0, y0, px, py, c);
    }
  }

  /** `BracketAlgebra` applied to the secant of `F` between `a` and `b`. */
  lemma SecantFacts(a: real, b: real, x0: real, y0: real, px: real, py: real, c: real)
    requires 0.0 < a < b && py != 0.0 && px / py > 0.0 && x0 > 0.0 && 0.0 <= c <= 1.0
    ensures -(px / py) * (c + (1.0 - c) * Square(x0 / a))
         <= (F(b, x0, y0, px, py, c) - F(a, x0, y0, px, py, c)) / (b - a)
         <= -(px / py) * (c + (1.0 - c) * Square(x0 / b))
    ensures F(b, x0, y0, px, py, c) < F(a, x0, y0, px, py, c)
  {
    DivAntitone(x0, a, b);
    FSecant(b, a, x0, y0, px, py, c);
    BracketAlgebra(px / py, c, x0 / a, x0 / b, b - a, F(b, x0, y0, px, py, c) - F(a, x0, y0, px, py, c));
  }

  // ---------------------------------------------------------------------------
  // The inverse of the slope (`calculateX`, without its square root)

  /** Solving the slope at `x` back for the reserve yields `(x0/x)^2`, the
      square of the ratio whose root `calculateX` takes. */
  lemma RadicandOfSlope(x: real, px: real, py: real, x0: real, c: real)
    requires x != 0.0 && px != 0.0 && py != 0.0 && c != 1.0
    ensures CalculateXRadicand(Dydx(x, px, py, x0, c), px, py, c) == Square(x0 / x)
  {
    ReciprocalRatio(px, py);
    UnscaleAlgebra(px / py, py / px, Dydx(x, px, py, x0, c), c, Square(x0 / x));
  }

  /** Any reserve whose squared ratio `(x0/x)^2` equals the radicand has the
      target slope: `calculateX` inverts `dydx`. */
  lemma {:induction false} SlopeOfRadicand(slope: real, x: real, px: real, py: real, x0: real, c: real)
    requires x != 0.0 && px != 0.0 && py != 0.0 && c != 1.0
    requires Square(x0 / x) == CalculateXRadicand(slope, px, py, c)
    ensures Dydx(x, px, py, x0, c) == slope
  {
    ReciprocalRatio(px, py);
    RescaleAlgebra(px / py, py / px, slope, c, Square(x0 / x));
  }

  // ---------------------------------------------------------------------------
  // Price impact

  /** Under valid parameters the X side is defined exactly away from `t = -1`,
      where its scaled reserve vanishes. */
  lemma DefinedXIff(t: real, p: Params)
    requires Valid(p)
    ensures DefinedX(t, p) <==> t != -1.0
  {
    if t != -1.0 {
      MulNonzero(t + 1.0, p.x0);
      assert Dydx(ScaledX(t, p), p.px, p.py, p.x0, p.cx) < 0.0 by {
        assert p.px / p.py > 0.0;
      }
    }
  }

  /** Under valid parameters the Y side is defined exactly away from `t = 1`. */
  lemma DefinedYIff(t: real, p: Params)
    requires Valid(p)
    ensures DefinedY(t, p) <==> t != 1.0
  {
    if t != 1.0 {
      MulNonzero(1.0 - t, p.y0);
      assert Dydx(ScaledY(t, p), p.py, p.px, p.y0, p.cy) < 0.0 by {
        assert p.py / p.px > 0.0;
      }
    }
  }

  /** `PriceImpactX` is the reciprocal of the slope's blend factor: the
      price ratio cancels. */
  lemma PriceImpactXReciprocal(t: real, p: Params)
    requires DefinedX(t, p)
    ensures PriceImpactX(t, p) * Blend(ScaledX(t, p), p.x0, p.cx) == 1.0
  {
    var s, k := ScaledX(t, p), p.px / p.py;
    var b := Blend(s, p.x0, p.cx);
    assert Dydx(s, p.px, p.py, p.x0, p.cx) == -k * b;
    CancelRatio(k, b);
  }

  /** The X-side value depends on `t` and `cx` only: prices and reserves
      cancel, leaving `1 / (cx + (1 - cx) * (1 / (t + 1))^2)`. */
  lemma PriceImpactXClosedForm(t: real, p: Params)
    requires DefinedX(t, p)
    ensures t != -1.0
    ensures PriceImpactX(t, p) * (p.cx + (1.0 - p.cx) * Square(1.0 / (t + 1.0))) == 1.0
  {
    PriceImpactXReciprocal(t, p);
    ScaledRatio(t + 1.0, p.x0);
  }

  /** The Y side is the X side of the swapped pool, mirrored in `t`: defined
      at the same places, with the same limit point and the same values. */
  lemma PriceImpactYMirror(t: real, p: Params)
    ensures DefinedY(t, p) <==> DefinedX(-t, Swap(p))
    ensures LimitY(t, p) <==> LimitX(-t, Swap(p))
    ensures DefinedY(t, p) ==> PriceImpactY(t, p) == PriceImpactX(-t, Swap(p))
  {
    assert ScaledX(-t, Swap(p)) == ScaledY(t, p);
  }

  /** For valid parameters, X-side values on `(-1, 0]` lie in `(0, 1]`, and
      are below 1 away from the centre unless the side is fully linear. */
  lemma {:induction false} PriceImpactXBounds(t: real, p: Params)
    requires Valid(p) && -1.0 < t <= 0.0
    ensures DefinedX(t, p)
    ensures 0.0 < PriceImpactX(t, p) <= 1.0
    ensures t < 0.0 && p.cx < 1.0 ==> PriceImpactX(t, p) < 1.0
  {
    DefinedXIff(t, p);
    var s := ScaledX(t, p);
    ScaleBetween(t + 1.0, p.x0);
    RatioAtLeastOne(p.x0, s);
    PriceImpactXReciprocal(t, p);
    ReciprocalBlendBounds(p.x0 / s, p.cx, PriceImpactX(t, p));
  }

  /** Positions `-1 < t1 <= t2 <= 0` map to reserves `0 < s1 <= s2 <= x0`. */
  lemma ScaledXOrder(t1: real, t2: real, p: Params)
    requires Valid(p) && -1.0 < t1 <= t2 <= 0.0
    ensures 0.0 < ScaledX(t1, p) <= ScaledX(t2, p) <= p.x0
  {
    ScaleOrder(t1 + 1.0, t2 + 1.0, p.x0);
    ScaleBetween(t2 + 1.0, p.x0);
  }

  /** For valid parameters, Y-side values on `[0, 1)` lie in `(0, 1]`. */
  lemma {:induction false} PriceImpactYBounds(t: real, p: Params)
    requires Valid(p) && 0.0 <= t < 1.0
    ensures DefinedY(t, p)
    ensures 0.0 < PriceImpactY(t, p) <= 1.0
    ensures t > 0.0 && p.cy < 1.0 ==> PriceImpactY(t, p) < 1.0
  {
    DefinedYIff(t, p);
    PriceImpactYMirror(t, p);
    PriceImpactXBounds(-t, Swap(p));
  }

  /** The X-side value grows monotonically towards the centre: the displayed
      impact `1 - value` grows with the size of the trade. */
  lemma {:induction false} PriceImpactXMonotone(t1: real, t2: real, p: Params)
    requires Valid(p) && -1.0 < t1 <= t2 <= 0.0
    ensures DefinedX(t1, p) && DefinedX(t2, p)
    ensures PriceImpactX(t1, p) <= PriceImpactX(t2, p)
  {
    DefinedXIff(t1, p);
    DefinedXIff(t2, p);
    var s1, s2 := ScaledX(t1, p), ScaledX(t2, p);
    ScaledXOrder(t1, t2, p);
    RatioOrder(p.x0, s1, s2);
    PriceImpactXReciprocal(t1, p);
    PriceImpactXReciprocal(t2, p);
    ReciprocalBlendMonotone(p.x0 / s1, p.x0 / s2, p.cx, PriceImpactX(t1, p), PriceImpactX(t2, p));
  }

  /** The Y-side value shrinks monotonically away from the centre. */
  lemma {:induction false} PriceImpactYMonotone(t1: real, t2: real, p: Params)
    requires Valid(p) && 0.0 <= t1 <= t2 < 1.0
    ensures DefinedY(t1, p) && DefinedY(t2, p)
    ensures PriceImpactY(t2, p) <= PriceImpactY(t1, p)
  {
    DefinedYIff(t1, p);
    DefinedYIff(t2, p);
    PriceImpactYMirror(t1, p);
    PriceImpactYMirror(t2, p);
    PriceImpactXMonotone(-t2, -t1, Swap(p));
  }

  // ---------------------------------------------------------------------------
  // Real-arithmetic steps, stated over plain variables so that each proof
  // sees only the algebra it needs

  lemma MulPos(a: real, b: real)
    requires a > 0.0 && b > 0.0
    ensures a * b > 0.0
  {
  }

  lemma MulNonneg(a: real, b: real)
    requires a >= 0.0 && b >= 0.0
    ensures a * b >= 0.0
  {
  }

  lemma MulNonzero(a: real, b: real)
    requires a != 0.0 && b != 0.0
    ensures a * b != 0.0
  {
  }

  lemma SquarePos(r: real)
    requires r != 0.0
    ensures Square(r) > 0.0
  {
    assert Square(r) / r == r;
  }

  lemma SecantAlgebra(a: real, b: real, x0: real, k: real, c: real, ra: real, rb: real)
    requires ra * a == x0 && rb * b == x0
    ensures k * (x0 - a) * (c + (1.0 - c) * ra) - k * (x0 - b) * (c + (1.0 - c) * rb)
         == -k * (c + (1.0 - c) * (ra * rb)) * (a - b)
  {
    assert (x0 - a) * ra == x0 * ra - x0;
    assert (x0 - b) * rb == x0 * rb - x0;
    assert ra * rb * (a - b) == x0 * rb - x0 * ra;
  }

  lemma DivAntitone(n: real, d1: real, d2: real)
    requires n > 0.0 && 0.0 < d1 < d2
    ensures 0.0 < n / d2 < n / d1
  {
    assert n / d2 * d2 == n;
    assert n / d1 * d1 == n;
    assert n / d2 * d1 < n / d2 * d2;
  }

  lemma ProductBetween(hi: real, lo: real)
    requires 0.0 < lo <= hi
    ensures 0.0 < Square(lo) <= lo * hi <= Square(hi)
  {
    SquarePos(lo);
    MulNonneg(lo, hi - lo);
    MulNonneg(hi, hi - lo);
  }

  lemma BlendPositive(c: real, r: real)
    requires 0.0 <= c <= 1.0 && r != 0.0
    ensures c + (1.0 - c) * Square(r) > 0.0
  {
    if c < 1.0 {
      SquarePos(r);
      MulPos(1.0 - c, Square(r));
    } else {
      assert c == 1.0;
    }
  }

  /** The blend factor is positive and grows with the squared ratio. */
  lemma BlendBetween(c: real, hi: real, lo: real)
    requires 0.0 <= c <= 1.0 && 0.0 < lo <= hi
    ensures 0.0 < c + (1.0 - c) * Square(lo)
    ensures c + (1.0 - c) * Square(lo) <= c + (1.0 - c) * (lo * hi) <= c + (1.0 - c) * Square(hi)
  {
    ProductBetween(hi, lo);
    BlendPositive(c, lo);
    MulNonneg(1.0 - c, lo * hi - Square(lo));
    MulNonneg(1.0 - c, Square(hi) - lo * hi);
  }

  /** The algebra behind `DydxBracketsSecant`, over the ratios `ra = x0/a`
      and `rb = x0/b`. */
  lemma BracketAlgebra(k: real, c: real, ra: real, rb: real, d: real, diff: real)
    requires k > 0.0 && 0.0 <= c <= 1.0 && 0.0 < rb <= ra && d > 0.0
    requires diff == -k * (c + (1.0 - c) * (rb * ra)) * d
    ensures -k * (c + (1.0 - c) * Square(ra)) <= diff / d <= -k * (c + (1.0 - c) * Square(rb))
    ensures diff < 0.0
  {
    var bm := c + (1.0 - c) * (rb * ra);
    BlendBetween(c, ra, rb);
    SecantSlope(diff, k, bm, d);
    ScaleAntitone(k, c + (1.0 - c) * Square(ra), bm, c + (1.0 - c) * Square(rb));
  }

  lemma SecantSlope(diff: real, k: real, bm: real, d: real)
    requires k > 0.0 && bm > 0.0 && d > 0.0 && diff == -k * bm * d
    ensures diff / d == -k * bm
    ensures diff < 0.0
  {
    MulPos(k, bm);
    MulPos(k * bm, d);
  }

  lemma ScaleAntitone(k: real, ba: real, bm: real, bb: real)
    requires k > 0.0 && bb <= bm <= ba
    ensures -k * ba <= -k * bm <= -k * bb
  {
    MulNonneg(k, ba - bm);
    MulNonneg(k, bm - bb);
  }

  lemma ReciprocalRatio(px: real, py: real)
    requires px != 0.0 && py != 0.0
    ensures (px / py) * (py / px) == 1.0
  {
  }

  lemma DivCancel(x: real, y: real)
    requires y != 0.0
    ensures (y * x) / y == x
  {
  }

  lemma UnscaleAlgebra(k: real, kinv: real, d: real, c: real, q: real)
    requires k * kinv == 1.0 && c != 1.0
    requires d == -k * (c + (1.0 - c) * q)
    ensures (kinv * -d - c) / (1.0 - c) == q
  {
    assert kinv * -d == c + (1.0 - c) * q;
    assert kinv * -d - c == (1.0 - c) * q;
    DivCancel(q, 1.0 - c);
  }

  lemma RescaleAlgebra(k: real, kinv: real, slope: real, c: real, q: real)
    requires k * kinv == 1.0 && c != 1.0
    requires q == (kinv * -slope - c) / (1.0 - c)
    ensures -k * (c + (1.0 - c) * q) == slope
  {
    assert c + (1.0 - c) * q == kinv * -slope;
  }

  lemma CancelRatio(k: real, b: real)
    requires -k * b != 0.0
    ensures k / -(-k * b) * b == 1.0
  {
    assert k != 0.0 && b != 0.0;
  }

  lemma ScaledRatio(u: real, x0: real)
    requires u != 0.0 && x0 != 0.0
    ensures Square(x0 / (u * x0)) == Square(1.0 / u)
  {
    assert x0 / (u * x0) == 1.0 / u;
  }

  lemma ScaleOrder(u1: real, u2: real, x0: real)
    requires 0.0 < u1 <= u2 && x0 > 0.0
    ensures 0.0 < u1 * x0 <= u2 * x0
  {
    assert u2 * x0 - u1 * x0 == (u2 - u1) * x0;
    MulNonneg(u2 - u1, x0);
    MulPos(u1, x0);
  }

  lemma ScaleBetween(u: real, x0: real)
    requires 0.0 < u <= 1.0 && x0 > 0.0
    ensures 0.0 < u * x0 <= x0
    ensures u < 1.0 ==> u * x0 < x0
  {
    ScaleOrder(u, 1.0, x0);
    if u < 1.0 {
      assert x0 - u * x0 == (1.0 - u) * x0;
      MulPos(1.0 - u, x0);
    }
  }

  lemma RatioOrder(x0: real, s1: real, s2: real)
    requires 0.0 < s1 <= s2 <= x0
    ensures 0.0 < x0 / s2 <= x0 / s1
  {
    if s1 < s2 {
      DivAntitone(x0, s1, s2);
    } else {
      RatioAtLeastOne(x0, s2);
    }
  }

  lemma RatioAtLeastOne(x0: real, s: real)
    requires 0.0 < s <= x0
    ensures x0 / s >= 1.0
    ensures s < x0 ==> x0 / s > 1.0
  {
    assert x0 / s * s == x0;
  }

  lemma ReciprocalBlendBounds(r: real, c: real, v: real)
    requires r >= 1.0 && 0.0 <= c <= 1.0
    requires v * (c + (1.0 - c) * Square(r)) == 1.0
    ensures 0.0 < v <= 1.0
    ensures r > 1.0 && c < 1.0 ==> v < 1.0
  {
    var b := c + (1.0 - c) * Square(r);
    assert Square(r) - 1.0 == (r - 1.0) * (r + 1.0);
    MulNonneg(r - 1.0, r + 1.0);
    assert b - 1.0 == (1.0 - c) * (Square(r) - 1.0);
    MulNonneg(1.0 - c, Square(r) - 1.0);
    if r > 1.0 && c < 1.0 {
      MulPos(r - 1.0, r + 1.0);
      MulPos(1.0 - c, Square(r) - 1.0);
    }
  }

  lemma ReciprocalAntitone(b1: real, b2: real, v1: real, v2: real)
    requires 0.0 < b2 <= b1 && v1 * b1 == 1.0 && v2 * b2 == 1.0
    ensures v1 <= v2
  {
    assert v1 > 0.0 && v2 > 0.0;
    MulNonneg(v1, b1 - b2);
  }

  lemma ReciprocalBlendMonotone(r1: real, r2: real, c: real, v1: real, v2: real)
    requires 0.0 < r2 <= r1 && 0.0 <= c <= 1.0
    requires v1 * (c + (1.0 - c) * Square(r1)) == 1.0
    requires v2 * (c + (1.0 - c) * Square(r2)) == 1.0
    ensures v1 <= v2
  {
    BlendBetween(c, r1, r2);
    ReciprocalAntitone(c + (1.0 - c) * Square(r1), c + (1.0 - c) * Square(r2), v1, v2);
  }
}
