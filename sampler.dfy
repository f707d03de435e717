/** The curve sampler of the chart (`generateSeriesData`): it walks
    `steps + 1` equally spaced positions from `xStart` to `xEnd`, evaluates a
    callback at each, and keeps the pairs whose value lies in `[0, 1]`.
    A callback that throws is modelled as one that returns `None`. */
module Sampler {
  import opened Wrappers

  /** The `i`-th sample position, `xStart + i * dx` with
      `dx = (xEnd - xStart) / steps`. */
  function Candidate(xStart: real, xEnd: real, steps: nat, i: nat): (x: real)
    requires steps > 0
    ensures i == 0 ==> x == xStart
    ensures i == steps ==> x == xEnd
  {
    var dx := (xEnd - xStart) / (steps as real);
    assert (steps as real) * dx == xEnd - xStart;
    xStart + (i as real) * dx
  }

  /** Whether an evaluation is plotted: it returned, with a value in `[0, 1]`. */
  predicate InRange(r: Option<real>)
  {
    r.Some? && r.value >= 0.0 && r.value <= 1.0
  }

  /** The pair plotted for candidate `i`. */
  function Point(fn: real -> Option<real>, xStart: real, xEnd: real, steps: nat, i: nat): (real, real)
    requires steps > 0 && InRange(fn(Candidate(xStart, xEnd, steps, i)))
  {
    var x := Candidate(xStart, xEnd, steps, i);
    (x, fn(x).value)
  }

  /** The pairs kept from the first `n` candidates, in the order visited. */
  function Series(fn: real -> Option<real>, xStart: real, xEnd: real, steps: nat, n: nat): (s: seq<(real, real)>)
    requires steps > 0
    ensures |s| <= n
  {
    if n == 0 then []
    else
      var rest := Series(fn, xStart, xEnd, steps, n - 1);
      if InRange(fn(Candidate(xStart, xEnd, steps, n - 1)))
      then rest + [Point(fn, xStart, xEnd, steps, n - 1)]
      else rest
  }

  /** The indices of the candidates kept among the first `n`, in order. */
  function Kept(fn: real -> Option<real>, xStart: real, xEnd: real, steps: nat, n: nat): seq<nat>
    requires steps > 0
  {
    if n == 0 then []
    else
      var rest := Kept(fn, xStart, xEnd, steps, n - 1);
      if InRange(fn(Candidate(xStart, xEnd, steps, n - 1))) then rest + [n - 1] else rest
  }

  /** `generateSeriesData(fn, xStart, xEnd, steps)`. */
  method GenerateSeriesData(fn: real -> Option<real>, xStart: real, xEnd: real, steps: nat)
    returns (data: seq<(real, real)>)
    requires steps > 0
    ensures data == Series(fn, xStart, xEnd, steps, steps + 1)
    ensures |data| <= steps + 1
    ensures forall k :: 0 <= k < |data| ==>
              fn(data[k].0) == Some(data[k].1) && 0.0 <= data[k].1 <= 1.0
    ensures forall k :: 0 <= k < |data| ==>
              exists i :: 0 <= i <= steps && data[k].0 == Candidate(xStart, xEnd, steps, i)
    ensures forall i :: 0 <= i <= steps && InRange(fn(Candidate(xStart, xEnd, steps, i))) ==>
              Point(fn, xStart, xEnd, steps, i) in data
    ensures xStart < xEnd ==> forall j, k :: 0 <= j < k < |data| ==> data[j].0 < data[k].0
  {
    data := [];
    var dx := (xEnd - xStart) / (steps as real);
    var i := 0;
    while i <= steps
      invariant 0 <= i <= steps + 1
      invariant data == Series(fn, xStart, xEnd, steps, i)
    {
      var x := xStart + (i as real) * dx;
      assert x == Candidate(xStart, xEnd, steps, i);
      match fn(x) {
        case None =>
          // the evaluation threw: the position is skipped
        case Some(y) =>
          if y >= 0.0 && y <= 1.0 {
            data := data + [(x, y)];
          }
      }
      i := i + 1;
    }
    SeriesFacts(fn, xStart, xEnd, steps, steps + 1);
  }

  // ---------------------------------------------------------------------------
  // What the kept indices and the series are

  /** The kept indices are strictly increasing, below `n`, and are exactly
      the candidates whose evaluation is in range. */
  lemma {:induction false} KeptSpec(fn: real -> Option<real>, xStart: real, xEnd: real, steps: nat, n: nat)
    requires steps > 0
    ensures |Kept(fn, xStart, xEnd, steps, n)| <= n
    ensures forall k :: 0 <= k < |Kept(fn, xStart, xEnd, steps, n)| ==>
              Kept(fn, xStart, xEnd, steps, n)[k] < n
              && InRange(fn(Candidate(xStart, xEnd, steps, Kept(fn, xStart, xEnd, steps, n)[k])))
    ensures forall j, k :: 0 <= j < k < |Kept(fn, xStart, xEnd, steps, n)| ==>
              Kept(fn, xStart, xEnd, steps, n)[j] < Kept(fn, xStart, xEnd, steps, n)[k]
    ensures forall i: nat :: i < n && InRange(fn(Candidate(xStart, xEnd, steps, i))) ==>
              i in Kept(fn, xStart, xEnd, steps, n)
  {
    if n > 0 {
      KeptSpec(fn, xStart, xEnd, steps, n - 1);
    }
  }

  /** The series is the kept indices' points, one for one. */
  lemma {:induction false} SeriesIsKeptPoints(fn: real -> Option<real>, xStart: real, xEnd: real, steps: nat, n: nat)
    requires steps > 0
    ensures |Series(fn, xStart, xEnd, steps, n)| == |Kept(fn, xStart, xEnd, steps, n)|
    ensures forall k :: 0 <= k < |Kept(fn, xStart, xEnd, steps, n)| ==>
              InRange(fn(Candidate(xStart, xEnd, steps, Kept(fn, xStart, xEnd, steps, n)[k])))
              && Series(fn, xStart, xEnd, steps, n)[k]
                 == Point(fn, xStart, xEnd, steps, Kept(fn, xStart, xEnd, steps, n)[k])
  {
    if n > 0 {
      SeriesIsKeptPoints(fn, xStart, xEnd, steps, n - 1);
    }
  }

  /** With `xStart < xEnd` the sample positions strictly increase with `i`. */
  lemma CandidateIncreasing(xStart: real, xEnd: real, steps: nat, i: nat, j: nat)
    requires steps > 0 && xStart < xEnd && i < j
    ensures Candidate(xStart, xEnd, steps, i) < Candidate(xStart, xEnd, steps, j)
  {
    var dx := (xEnd - xStart) / (steps as real);
    assert dx > 0.0;
    assert (j as real) * dx - (i as real) * dx == ((j - i) as real) * dx;
    assert ((j - i) as real) * dx > 0.0;
  }

  /** Everything `GenerateSeriesData` promises, as facts about `Series`. */
  lemma SeriesFacts(fn: real -> Option<real>, xStart: real, xEnd: real, steps: nat, n: nat)
    requires steps > 0
    ensures var s := Series(fn, xStart, xEnd, steps, n);
      && |s| <= n
      && (forall k :: 0 <= k < |s| ==> fn(s[k].0) == Some(s[k].1) && 0.0 <= s[k].1 <= 1.0)
      && (forall k :: 0 <= k < |s| ==> exists i :: 0 <= i < n && s[k].0 == Candidate(xStart, xEnd, steps, i))
      && (forall i :: 0 <= i < n && InRange(fn(Candidate(xStart, xEnd, steps, i))) ==>
            Point(fn, xStart, xEnd, steps, i) in s)
      && (xStart < xEnd ==> forall j, k :: 0 <= j < k < |s| ==> s[j].0 < s[k].0)
  {
    var s := Series(fn, xStart, xEnd, steps, n);
    var ks := Kept(fn, xStart, xEnd, steps, n);
    KeptSpec(fn, xStart, xEnd, steps, n);
    SeriesIsKeptPoints(fn, xStart, xEnd, steps, n);
    forall k | 0 <= k < |s|
      ensures exists i :: 0 <= i < n && s[k].0 == Candidate(xStart, xEnd, steps, i)
    {
      assert s[k].0 == Candidate(xStart, xEnd, steps, ks[k]);
    }
    forall i | 0 <= i < n && InRange(fn(Candidate(xStart, xEnd, steps, i)))
      ensures Point(fn, xStart, xEnd, steps, i) in s
    {
      var k :| 0 <= k < |ks| && ks[k] == i;
      assert s[k] == Point(fn, xStart, xEnd, steps, i);
    }
    if xStart < xEnd {
      forall j, k | 0 <= j < k < |s|
        ensures s[j].0 < s[k].0
      {
        CandidateIncreasing(xStart, xEnd, steps, ks[j], ks[k]);
      }
    }
  }

  // ---------------------------------------------------------------------------
  // Series whose accepted candidates form one window of indices

  function Min(a: nat, b: nat): nat
  {
    if a <= b then a else b
  }

  /** The indices `lo, lo + 1, ..., hi - 1`. */
  function Range(lo: nat, hi: nat): seq<nat>
    requires lo <= hi
  {
    seq(hi - lo, k requires 0 <= k < hi - lo => lo + k)
  }

  /** When exactly the candidates `lo <= i < hi` are in range, the kept
      indices among the first `n` are that window cut at `n`. */
  lemma {:induction false} KeptWindow(fn: real -> Option<real>, xStart: real, xEnd: real, steps: nat,
                                      lo: nat, hi: nat, n: nat)
    requires steps > 0 && lo <= hi
    requires forall i: nat :: i < n ==> (InRange(fn(Candidate(xStart, xEnd, steps, i))) <==> lo <= i < hi)
    ensures Kept(fn, xStart, xEnd, steps, n) == Range(Min(lo, n), Min(hi, n))
  {
    if n > 0 {
      KeptWindow(fn, xStart, xEnd, steps, lo, hi, n - 1);
      var m := n - 1;
      if lo <= m < hi {
        assert Range(Min(lo, m), Min(hi, m)) + [m] == Range(Min(lo, n), Min(hi, n));
      }
    }
  }
}
