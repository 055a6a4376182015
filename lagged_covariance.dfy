/**
 * The lag loop of xcov_multi_with_confidence: for every lag in
 * [-lag_backward, lag_forward) the paired series are cut so that x and y are
 * offset by that lag, the cut series are pooled by concatenation, and the
 * pools are handed to a statistics routine whose four results are collected.
 * The statistics routine is a parameter of the model.
 */
module LaggedCovariance {
  import opened Wrappers

  /** The four numbers the statistics routine returns for one pool. */
  datatype Estimate = Estimate(cov: real, pValue: real, lowerBound: real, upperBound: real)

  /** The four result columns, one entry per lag. */
  datatype LagTable = LagTable(covs: seq<real>, pValues: seq<real>, lbs: seq<real>, ubs: seq<real>)

  /** The two errors the routine raises: unequal paired lengths, and an empty pool. */
  datatype XcovError = ShapeMismatch | NothingToConcatenate

  function Abs(n: int): nat
  {
    if n < 0 then -n else n
  }

  /**
   * Every zipped pair (xs[i], ys[i]) has equal lengths; like zip, the check
   * looks only at the first min(|xs|, |ys|) pairs.
   */
  predicate PairedLengths(xs: seq<seq<real>>, ys: seq<seq<real>>)
  {
    forall i :: 0 <= i < |xs| && i < |ys| ==> |xs[i]| == |ys[i]|
  }

  /** How many leading samples of x a lag cuts off (x[-lag:] for a negative lag). */
  function XShift(lag: int): nat
  {
    if lag < 0 then -lag else 0
  }

  /** How many leading samples of y a lag cuts off (y[lag:] for a positive lag). */
  function YShift(lag: int): nat
  {
    if lag > 0 then lag else 0
  }

  /** x[-lag:] for a negative lag, x[:-lag] for a positive one: x[j] is kept at j - max(0, -lag). */
  function XSlice(x: seq<real>, lag: int): (s: seq<real>)
    requires |x| > Abs(lag)
    ensures |s| == |x| - Abs(lag)
    ensures forall j :: 0 <= j < |s| ==> s[j] == x[j + XShift(lag)]
  {
    if lag < 0 then x[-lag..] else x[..|x| - lag]
  }

  /** y[:lag] for a negative lag, y[lag:] for a positive one: y[j] is kept at j - max(0, lag). */
  function YSlice(y: seq<real>, lag: int): (s: seq<real>)
    requires |y| > Abs(lag)
    ensures |s| == |y| - Abs(lag)
    ensures forall j :: 0 <= j < |s| ==> s[j] == y[j + YShift(lag)]
  {
    if lag < 0 then y[..|y| + lag] else y[lag..]
  }

  /** The cut x series of a non-zero lag, dropping series no longer than |lag|. */
  function ShiftedX(xs: seq<seq<real>>, lag: int): seq<seq<real>>
  {
    if xs == [] then []
    else (if |xs[0]| > Abs(lag) then [XSlice(xs[0], lag)] else []) + ShiftedX(xs[1..], lag)
  }

  /** The cut y series of a non-zero lag, dropping series no longer than |lag|. */
  function ShiftedY(ys: seq<seq<real>>, lag: int): seq<seq<real>>
  {
    if ys == [] then []
    else (if |ys[0]| > Abs(lag) then [YSlice(ys[0], lag)] else []) + ShiftedY(ys[1..], lag)
  }

  /** x_rel: all series unchanged at lag 0, the cut series otherwise. */
  function XParts(xs: seq<seq<real>>, lag: int): seq<seq<real>>
  {
    if lag == 0 then xs else ShiftedX(xs, lag)
  }

  /** y_rel: all series unchanged at lag 0, the cut series otherwise. */
  function YParts(ys: seq<seq<real>>, lag: int): seq<seq<real>>
  {
    if lag == 0 then ys else ShiftedY(ys, lag)
  }

  /** np.concatenate of a non-empty list of series; the empty list is an error in the routine. */
  function Concatenate(parts: seq<seq<real>>): seq<real>
  {
    if parts == [] then [] else parts[0] + Concatenate(parts[1..])
  }

  /** np.concatenate(x_rel): the x samples pooled at a lag. */
  function PooledX(xs: seq<seq<real>>, lag: int): seq<real>
  {
    Concatenate(XParts(xs, lag))
  }

  /** np.concatenate(y_rel): the y samples pooled at a lag. */
  function PooledY(ys: seq<seq<real>>, lag: int): seq<real>
  {
    Concatenate(YParts(ys, lag))
  }

  /** What one series contributes to the pool of a lag. */
  function XHead(x: seq<real>, lag: int): seq<real>
  {
    if |x| > Abs(lag) then XSlice(x, lag) else []
  }

  function YHead(y: seq<real>, lag: int): seq<real>
  {
    if |y| > Abs(lag) then YSlice(y, lag) else []
  }

  /**
   * The pooled x of a lag described series by series: each series' share in
   * order (ConcatenatedXParts shows that this is PooledX).
   */
  function XPool(xs: seq<seq<real>>, lag: int): seq<real>
  {
    if xs == [] then [] else XHead(xs[0], lag) + XPool(xs[1..], lag)
  }

  /** The pooled y of a lag described series by series (ConcatenatedYParts: this is PooledY). */
  function YPool(ys: seq<seq<real>>, lag: int): seq<real>
  {
    if ys == [] then [] else YHead(ys[0], lag) + YPool(ys[1..], lag)
  }

  /** The number of samples pooled at a lag: len - |lag| over the series longer than |lag|. */
  function PoolSize(xs: seq<seq<real>>, lag: int): nat
  {
    if xs == [] then 0
    else (if |xs[0]| > Abs(lag) then |xs[0]| - Abs(lag) else 0) + PoolSize(xs[1..], lag)
  }

  /** The total number of samples of all series. */
  function TotalLength(xs: seq<seq<real>>): nat
  {
    if xs == [] then 0 else |xs[0]| + TotalLength(xs[1..])
  }

  /** The number of lags in range(-lag_backward, lag_forward). */
  function LagCount(lagBackward: int, lagForward: int): nat
  {
    if lagBackward + lagForward > 0 then lagBackward + lagForward else 0
  }

  /** What the statistics routine reports for the pools of one lag. */
  function LagEstimate(xs: seq<seq<real>>, ys: seq<seq<real>>, lag: int, confidence: real,
                       covWithConfidence: (seq<real>, seq<real>, real) -> Estimate): Estimate
  {
    covWithConfidence(PooledX(xs, lag), PooledY(ys, lag), confidence)
  }

  /** Some side keeps no series at this lag, so np.concatenate has nothing to join. */
  predicate NoParts(xs: seq<seq<real>>, ys: seq<seq<real>>, lag: int)
  {
    XParts(xs, lag) == [] || YParts(ys, lag) == []
  }

  /**
   * The result of the lag loop: one entry per lag of the range, and the
   * entry of a lag, at index lag + lag_backward of every column, is the
   * statistics routine applied to the pools of that lag.
   */
  ghost predicate IsLagTable(xs: seq<seq<real>>, ys: seq<seq<real>>, lagBackward: int, lagForward: int,
                             confidence: real, covWithConfidence: (seq<real>, seq<real>, real) -> Estimate,
                             table: LagTable)
  {
    var n := LagCount(lagBackward, lagForward);
    && |table.covs| == |table.pValues| == |table.lbs| == |table.ubs| == n
    && forall lag :: -lagBackward <= lag < lagForward ==>
         Estimate(table.covs[lag + lagBackward], table.pValues[lag + lagBackward],
                  table.lbs[lag + lagBackward], table.ubs[lag + lagBackward])
         == LagEstimate(xs, ys, lag, confidence, covWithConfidence)
  }

  /**
   * xcov_multi_with_confidence without the normed branch. It fails with
   * ShapeMismatch exactly when some zipped pair differs in length, and
   * otherwise with NothingToConcatenate exactly when some lag of the range
   * keeps no x series or no y series; on success, every column holds the
   * estimates of the lags in order.
   */
  method XcovMultiWithConfidence(xs: seq<seq<real>>, ys: seq<seq<real>>, lagBackward: int, lagForward: int,
                                 confidence: real, covWithConfidence: (seq<real>, seq<real>, real) -> Estimate)
    returns (r: Result<LagTable, XcovError>)
    ensures r == Failure(ShapeMismatch) <==> !PairedLengths(xs, ys)
    ensures r == Failure(NothingToConcatenate) <==>
      PairedLengths(xs, ys) && exists lag :: -lagBackward <= lag < lagForward && NoParts(xs, ys, lag)
    ensures r.Success? ==> IsLagTable(xs, ys, lagBackward, lagForward, confidence, covWithConfidence, r.value)
  {
    if !PairedLengths(xs, ys) {
      return Failure(ShapeMismatch);
    }
    var covs, pValues, lbs, ubs := [], [], [], [];
    var lag := -lagBackward;
    while lag < lagForward
      invariant lag == -lagBackward || lag <= lagForward
      invariant |covs| == |pValues| == |lbs| == |ubs| == lag + lagBackward
      invariant lag + lagBackward <= LagCount(lagBackward, lagForward)
      invariant forall l :: -lagBackward <= l < lag ==> !NoParts(xs, ys, l)
      invariant forall l :: -lagBackward <= l < lag ==>
        Estimate(covs[l + lagBackward], pValues[l + lagBackward], lbs[l + lagBackward], ubs[l + lagBackward])
        == LagEstimate(xs, ys, l, confidence, covWithConfidence)
      decreases lagForward - lag
    {
      // x_rel and y_rel; np.concatenate raises on an empty list
      if NoParts(xs, ys, lag) {
        return Failure(NothingToConcatenate);
      }
      var allXs, allYs := PooledX(xs, lag), PooledY(ys, lag);
      var e := covWithConfidence(allXs, allYs, confidence);
      covs, pValues, lbs, ubs := covs + [e.cov], pValues + [e.pValue], lbs + [e.lowerBound], ubs + [e.upperBound];
      lag := lag + 1;
    }
    assert forall l :: -lagBackward <= l < lagForward ==> !NoParts(xs, ys, l);
    assert |covs| == LagCount(lagBackward, lagForward);
    return Success(LagTable(covs, pValues, lbs, ubs));
  }

  /** The pool of a lag is the first series' contribution followed by the pool of the rest. */
  lemma {:induction false} XPartsCons(xs: seq<seq<real>>, lag: int)
    requires xs != []
    ensures PooledX(xs, lag) == XHead(xs[0], lag) + PooledX(xs[1..], lag)
  {
    if lag != 0 {
      var head := if |xs[0]| > Abs(lag) then [XSlice(xs[0], lag)] else [];
      ConcatenateAppend(head, ShiftedX(xs[1..], lag));
    }
  }

  lemma {:induction false} YPartsCons(ys: seq<seq<real>>, lag: int)
    requires ys != []
    ensures PooledY(ys, lag) == YHead(ys[0], lag) + PooledY(ys[1..], lag)
  {
    if lag != 0 {
      var head := if |ys[0]| > Abs(lag) then [YSlice(ys[0], lag)] else [];
      ConcatenateAppend(head, ShiftedY(ys[1..], lag));
    }
  }

  /** Concatenating a list of at most one part in front of others. */
  lemma {:induction false} ConcatenateAppend(head: seq<seq<real>>, rest: seq<seq<real>>)
    requires |head| <= 1
    ensures Concatenate(head + rest) == (if head == [] then [] else head[0]) + Concatenate(rest)
  {
    if head != [] {
      assert (head + rest)[1..] == rest;
    } else {
      assert head + rest == rest;
    }
  }

  /** Concatenating the x parts gives each series' share in order. */
  lemma {:induction false} ConcatenatedXParts(xs: seq<seq<real>>, lag: int)
    ensures PooledX(xs, lag) == XPool(xs, lag)
    decreases |xs|
  {
    if xs != [] {
      XPartsCons(xs, lag);
      ConcatenatedXParts(xs[1..], lag);
    }
  }

  /** Concatenating the y parts gives each series' share in order. */
  lemma {:induction false} ConcatenatedYParts(ys: seq<seq<real>>, lag: int)
    ensures PooledY(ys, lag) == YPool(ys, lag)
    decreases |ys|
  {
    if ys != [] {
      YPartsCons(ys, lag);
      ConcatenatedYParts(ys[1..], lag);
    }
  }

  /** The pooled x of a lag holds exactly PoolSize samples. */
  lemma {:induction false} XPoolLength(xs: seq<seq<real>>, lag: int)
    ensures |XPool(xs, lag)| == PoolSize(xs, lag)
    decreases |xs|
  {
    if xs != [] {
      XPoolLength(xs[1..], lag);
    }
  }

  /** The pooled y of a lag holds exactly PoolSize samples. */
  lemma {:induction false} YPoolLength(ys: seq<seq<real>>, lag: int)
    ensures |YPool(ys, lag)| == PoolSize(ys, lag)
    decreases |ys|
  {
    if ys != [] {
      YPoolLength(ys[1..], lag);
    }
  }

  /** Paired series pool the same number of samples at every lag. */
  lemma {:induction false} SamePoolSize(xs: seq<seq<real>>, ys: seq<seq<real>>, lag: int)
    requires |xs| == |ys| && PairedLengths(xs, ys)
    ensures PoolSize(xs, lag) == PoolSize(ys, lag)
    decreases |xs|
  {
    if xs != [] {
      assert |xs[0]| == |ys[0]|;
      SamePoolSize(xs[1..], ys[1..], lag);
    }
  }

  /**
   * For paired series the x and y pools of every lag have equal length, the
   * sum over series longer than |lag| of len - |lag|.
   */
  lemma {:induction false} PoolsHaveEqualLength(xs: seq<seq<real>>, ys: seq<seq<real>>, lag: int)
    requires |xs| == |ys| && PairedLengths(xs, ys)
    ensures |XPool(xs, lag)| == |YPool(ys, lag)| == PoolSize(xs, lag)
  {
    XPoolLength(xs, lag);
    YPoolLength(ys, lag);
    SamePoolSize(xs, ys, lag);
  }

  /** Lag 0 pools every series unchanged: all the samples, in order. */
  lemma {:induction false} LagZeroPoolsAll(xs: seq<seq<real>>, ys: seq<seq<real>>)
    ensures PooledX(xs, 0) == XPool(xs, 0) == Concatenate(xs)
    ensures PooledY(ys, 0) == YPool(ys, 0) == Concatenate(ys)
    ensures PoolSize(xs, 0) == TotalLength(xs)
  {
    ConcatenatedXParts(xs, 0);
    ConcatenatedYParts(ys, 0);
    LagZeroSize(xs);
  }

  /** At lag 0 every series contributes all of its samples. */
  lemma {:induction false} LagZeroSize(xs: seq<seq<real>>)
    ensures PoolSize(xs, 0) == TotalLength(xs)
    decreases |xs|
  {
    if xs != [] {
      LagZeroSize(xs[1..]);
    }
  }

  /** Pooling a list of series split in two pools each half in turn. */
  lemma {:induction false} XPoolAppend(a: seq<seq<real>>, b: seq<seq<real>>, lag: int)
    ensures XPool(a + b, lag) == XPool(a, lag) + XPool(b, lag)
    decreases |a|
  {
    if a == [] {
      assert a + b == b;
    } else {
      assert (a + b)[0] == a[0] && (a + b)[1..] == a[1..] + b;
      XPoolAppend(a[1..], b, lag);
    }
  }

  lemma {:induction false} YPoolAppend(a: seq<seq<real>>, b: seq<seq<real>>, lag: int)
    ensures YPool(a + b, lag) == YPool(a, lag) + YPool(b, lag)
    decreases |a|
  {
    if a == [] {
      assert a + b == b;
    } else {
      assert (a + b)[0] == a[0] && (a + b)[1..] == a[1..] + b;
      YPoolAppend(a[1..], b, lag);
    }
  }

  /** Series i's share sits in the x pool right after the shares of the series before it. */
  lemma {:induction false} XPoolSplit(xs: seq<seq<real>>, lag: int, i: int)
    requires 0 <= i < |xs|
    ensures XPool(xs, lag) == XPool(xs[..i], lag) + XHead(xs[i], lag) + XPool(xs[i + 1..], lag)
  {
    assert xs == xs[..i] + ([xs[i]] + xs[i + 1..]);
    XPoolAppend(xs[..i], [xs[i]] + xs[i + 1..], lag);
    assert ([xs[i]] + xs[i + 1..])[1..] == xs[i + 1..];
  }

  lemma {:induction false} YPoolSplit(ys: seq<seq<real>>, lag: int, i: int)
    requires 0 <= i < |ys|
    ensures YPool(ys, lag) == YPool(ys[..i], lag) + YHead(ys[i], lag) + YPool(ys[i + 1..], lag)
  {
    assert ys == ys[..i] + ([ys[i]] + ys[i + 1..]);
    YPoolAppend(ys[..i], [ys[i]] + ys[i + 1..], lag);
    assert ([ys[i]] + ys[i + 1..])[1..] == ys[i + 1..];
  }

  /** Element j of the middle part of a three-part concatenation. */
  lemma {:induction false} MiddleIndex(pool: seq<real>, a: seq<real>, b: seq<real>, c: seq<real>, n: int, j: int)
    requires pool == a + b + c && n == |a| && 0 <= j < |b|
    ensures n + j < |pool| && pool[n + j] == b[j]
  {
  }

  /** Sample j of a kept series' x share. */
  lemma {:induction false} XHeadAt(x: seq<real>, lag: int, j: int)
    requires |x| > Abs(lag) && 0 <= j < |x| - Abs(lag)
    ensures j < |XHead(x, lag)| && XHead(x, lag)[j] == x[j + XShift(lag)]
  {
  }

  /** Sample j of a kept series' y share. */
  lemma {:induction false} YHeadAt(y: seq<real>, lag: int, j: int)
    requires |y| > Abs(lag) && 0 <= j < |y| - Abs(lag)
    ensures j < |YHead(y, lag)| && YHead(y, lag)[j] == y[j + YShift(lag)]
  {
  }

  /** Sample j of series i's x cut sits in the x pool after the samples of the series before it. */
  lemma {:induction false} XPoolAt(xs: seq<seq<real>>, lag: int, i: int, j: int)
    requires 0 <= i < |xs| && |xs[i]| > Abs(lag) && 0 <= j < |xs[i]| - Abs(lag)
    ensures PoolSize(xs[..i], lag) + j < |XPool(xs, lag)|
    ensures XPool(xs, lag)[PoolSize(xs[..i], lag) + j] == xs[i][j + XShift(lag)]
  {
    XPoolSplit(xs, lag, i);
    XPoolLength(xs[..i], lag);
    XHeadAt(xs[i], lag, j);
    MiddleIndex(XPool(xs, lag), XPool(xs[..i], lag), XHead(xs[i], lag), XPool(xs[i + 1..], lag), PoolSize(xs[..i], lag), j);
  }

  /** Sample j of series i's y cut sits in the y pool after the samples of the series before it. */
  lemma {:induction false} YPoolAt(ys: seq<seq<real>>, lag: int, i: int, j: int)
    requires 0 <= i < |ys| && |ys[i]| > Abs(lag) && 0 <= j < |ys[i]| - Abs(lag)
    ensures PoolSize(ys[..i], lag) + j < |YPool(ys, lag)|
    ensures YPool(ys, lag)[PoolSize(ys[..i], lag) + j] == ys[i][j + YShift(lag)]
  {
    YPoolSplit(ys, lag, i);
    YPoolLength(ys[..i], lag);
    YHeadAt(ys[i], lag, j);
    MiddleIndex(YPool(ys, lag), YPool(ys[..i], lag), YHead(ys[i], lag), YPool(ys[i + 1..], lag), PoolSize(ys[..i], lag), j);
  }

  /**
   * Alignment: sample j of series i's cut lands at the same offset of both
   * pools, after the samples of the series before it. For lag >= 0 that pairs
   * xs[i][j] with ys[i][j + lag], for lag < 0 xs[i][j + |lag|] with ys[i][j].
   */
  lemma {:induction false} PoolsAlign(xs: seq<seq<real>>, ys: seq<seq<real>>, lag: int, i: int, j: int)
    requires |xs| == |ys| && PairedLengths(xs, ys)
    requires 0 <= i < |xs| && |xs[i]| > Abs(lag) && 0 <= j < |xs[i]| - Abs(lag)
    ensures var o := PoolSize(xs[..i], lag) + j;
      && o < |XPool(xs, lag)| && o < |YPool(ys, lag)|
      && XPool(xs, lag)[o] == xs[i][j + XShift(lag)]
      && YPool(ys, lag)[o] == ys[i][j + YShift(lag)]
  {
    assert PoolSize(xs[..i], lag) == PoolSize(ys[..i], lag) by {
      assert PairedLengths(xs[..i], ys[..i]);
      SamePoolSize(xs[..i], ys[..i], lag);
    }
    assert |xs[i]| == |ys[i]|;
    XPoolAt(xs, lag, i, j);
    YPoolAt(ys, lag, i, j);
  }

  /**
   * The same facts for np.concatenate(x_rel) and np.concatenate(y_rel): equal
   * lengths PoolSize, and sample j of series i's cut at the same offset of both.
   */
  lemma {:induction false} PooledAlign(xs: seq<seq<real>>, ys: seq<seq<real>>, lag: int, i: int, j: int)
    requires |xs| == |ys| && PairedLengths(xs, ys)
    requires 0 <= i < |xs| && |xs[i]| > Abs(lag) && 0 <= j < |xs[i]| - Abs(lag)
    ensures |PooledX(xs, lag)| == |PooledY(ys, lag)| == PoolSize(xs, lag)
    ensures var o := PoolSize(xs[..i], lag) + j;
      && o < |PooledX(xs, lag)|
      && PooledX(xs, lag)[o] == xs[i][j + XShift(lag)]
      && PooledY(ys, lag)[o] == ys[i][j + YShift(lag)]
  {
    var px, py := PooledX(xs, lag), PooledY(ys, lag);
    assert px == XPool(xs, lag) && py == YPool(ys, lag) by {
      ConcatenatedXParts(xs, lag);
      ConcatenatedYParts(ys, lag);
    }
    PoolsHaveEqualLength(xs, ys, lag);
    PoolsAlign(xs, ys, lag, i, j);
  }

  /** The x parts of a lag are empty exactly when no series is kept. */
  lemma {:induction false} ShiftedXEmpty(xs: seq<seq<real>>, lag: int)
    ensures ShiftedX(xs, lag) == [] <==> forall i :: 0 <= i < |xs| ==> |xs[i]| <= Abs(lag)
    decreases |xs|
  {
    if xs != [] {
      ShiftedXEmpty(xs[1..], lag);
      assert forall i :: 1 <= i < |xs| ==> xs[i] == xs[1..][i - 1];
    }
  }

  lemma {:induction false} ShiftedYEmpty(ys: seq<seq<real>>, lag: int)
    ensures ShiftedY(ys, lag) == [] <==> forall i :: 0 <= i < |ys| ==> |ys[i]| <= Abs(lag)
    decreases |ys|
  {
    if ys != [] {
      ShiftedYEmpty(ys[1..], lag);
      assert forall i :: 1 <= i < |ys| ==> ys[i] == ys[1..][i - 1];
    }
  }

  /**
   * Nothing is left to concatenate at a lag exactly when there are no series
   * (lag 0) or no series is longer than |lag|; for as many x as y series,
   * paired, the y parts are empty at the same lags, so the y side never adds
   * an error of its own.
   */
  lemma {:induction false} NoPartsIff(xs: seq<seq<real>>, ys: seq<seq<real>>, lag: int)
    requires |xs| == |ys| && PairedLengths(xs, ys)
    ensures XParts(xs, lag) == [] <==>
      if lag == 0 then xs == [] else forall i :: 0 <= i < |xs| ==> |xs[i]| <= Abs(lag)
    ensures YParts(ys, lag) == [] <==> XParts(xs, lag) == []
    ensures NoParts(xs, ys, lag) <==> XParts(xs, lag) == []
  {
    ShiftedXEmpty(xs, lag);
    ShiftedYEmpty(ys, lag);
    assert forall i :: 0 <= i < |xs| ==> |xs[i]| == |ys[i]|;
  }
}
