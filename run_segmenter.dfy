/**
 * segment_basic of time_series.py: the maximal runs of `true` in a boolean
 * signal, found by padding with `false` and looking for +1 / -1 first
 * differences of the 0/1 image of the signal.
 */
module RunSegmenter {
  import opened Wrappers

  /** The two arrays segment_basic returns. */
  datatype Segments = Segments(starts: seq<int>, ends: seq<int>)

  /** np.arange(n). */
  function Range(n: nat): seq<int>
  {
    seq(n, i => i)
  }

  /** The 0/1 image of a boolean (`astype(int)`). */
  function Indicator(b: bool): int
  {
    if b then 1 else 0
  }

  /** np.diff of the 0/1 image of `s`: entry i is s[i + 1] - s[i]. */
  function Diff(s: seq<bool>): seq<int>
  {
    if |s| <= 1 then []
    else seq(|s| - 1, i requires 0 <= i < |s| - 1 => Indicator(s[i + 1]) - Indicator(s[i]))
  }

  /**
   * `(d == v).nonzero()[0]` restricted to positions from `k` on: the positions
   * i >= k with d[i] == v, in ascending order.
   */
  function Positions(d: seq<int>, v: int, k: nat): (ps: seq<int>)
    requires k <= |d|
    ensures forall i :: 0 <= i < |ps| ==> k <= ps[i] < |d| && d[ps[i]] == v
    ensures forall i, j :: 0 <= i < j < |ps| ==> ps[i] < ps[j]
    decreases |d| - k
  {
    if k == |d| then []
    else (if d[k] == v then [k] else []) + Positions(d, v, k + 1)
  }

  /** `t[idx]` (NumPy fancy indexing). */
  function Gather(t: seq<int>, idx: seq<int>): seq<int>
    requires forall i :: 0 <= i < |idx| ==> 0 <= idx[i] < |t|
  {
    seq(|idx|, i requires 0 <= i < |idx| => t[idx[i]])
  }

  /** Indexing np.arange(n) gives back the indices. */
  lemma {:induction false} GatherRange(n: nat, idx: seq<int>)
    requires forall i :: 0 <= i < |idx| ==> 0 <= idx[i] < n
    ensures Gather(Range(n), idx) == idx
  {
  }

  /** `a + 1` on an array. */
  function PlusOne(a: seq<int>): seq<int>
  {
    seq(|a|, i requires 0 <= i < |a| => a[i] + 1)
  }

  /** Differences of the signal padded by a leading `false`: +1 marks a rising edge. */
  function RiseDiff(x: seq<bool>): seq<int>
  {
    Diff([false] + x)
  }

  /** Differences of the signal padded by a trailing `false`: -1 marks the last `true` of a run. */
  function FallDiff(x: seq<bool>): seq<int>
  {
    Diff(x + [false])
  }

  /** Positions where a run of `true` begins. */
  function Rising(x: seq<bool>): (ps: seq<int>)
    ensures forall i :: 0 <= i < |ps| ==> 0 <= ps[i] < |x|
  {
    Positions(RiseDiff(x), 1, 0)
  }

  /** Positions of the last `true` of each run. */
  function LastTrue(x: seq<bool>): (ps: seq<int>)
    ensures forall i :: 0 <= i < |ps| ==> 0 <= ps[i] < |x|
  {
    Positions(FallDiff(x), -1, 0)
  }

  /**
   * The runs of `true` in `x`, in order, as half-open intervals
   * [s[i], e[i]): each is all `true`, is bounded by `false` (or by an end of
   * `x`) on both sides, the runs are ordered and separated by a gap, and
   * every `true` lies in one of them.
   */
  ghost predicate IsRuns(x: seq<bool>, s: seq<int>, e: seq<int>)
  {
    && |s| == |e|
    && (forall i :: 0 <= i < |s| ==> 0 <= s[i] < e[i] <= |x| && TrueOn(x, s[i], e[i]))
    && (forall i, j :: 0 <= i < j < |s| ==> e[i] < s[j])
    && (forall i :: 0 <= i < |s| && 0 < s[i] ==> !x[s[i] - 1])
    && (forall i :: 0 <= i < |s| && e[i] < |x| ==> !x[e[i]])
    && (forall j {:trigger Covered(s, e, j)} :: 0 <= j < |x| && x[j] ==> Covered(s, e, j))
  }

  /** Every position of [lo, hi) holds `true`. */
  ghost predicate TrueOn(x: seq<bool>, lo: int, hi: int)
    requires 0 <= lo <= hi <= |x|
  {
    forall j :: lo <= j < hi ==> x[j]
  }

  /** Position j lies in one of the intervals [s[i], e[i]). */
  ghost predicate Covered(s: seq<int>, e: seq<int>, j: int)
    requires |s| == |e|
  {
    exists i :: 0 <= i < |s| && s[i] <= j < e[i]
  }

  /**
   * segment_basic(x, t). Without `t` the positions are the sample indices and
   * every end is one past the last `true` of its run; with `t` the starts are
   * `t` at the rising positions and the ends are `t` at the last `true`
   * positions, plus one (the +1 is added after mapping through `t`).
   */
  function SegmentBasic(x: seq<bool>, t: Option<seq<int>>): (r: Segments)
    requires t.Some? ==> |t.value| >= |x|
    ensures |r.starts| == |r.ends|
    ensures t.None? ==> forall i :: 0 <= i < |r.starts| ==> 0 <= r.starts[i] < r.ends[i] <= |x|
  {
    var tt := if t.None? then Range(|x|) else t.value;
    var rises, lasts := Rising(x), LastTrue(x);
    RunsOfDiffs(x);
    GatherRange(|x|, rises);
    GatherRange(|x|, lasts);
    Segments(Gather(tt, rises), PlusOne(Gather(tt, lasts)))
  }

  // ---------------------------------------------------------------------
  // Edge detection in terms of the signal itself

  ghost predicate IsRise(x: seq<bool>, p: int)
  {
    0 <= p < |x| && x[p] && (p == 0 || !x[p - 1])
  }

  ghost predicate IsLast(x: seq<bool>, q: int)
  {
    0 <= q < |x| && x[q] && (q == |x| - 1 || !x[q + 1])
  }

  lemma {:induction false} RiseDiffAt(x: seq<bool>, p: int)
    requires 0 <= p < |x|
    ensures |RiseDiff(x)| == |x|
    ensures RiseDiff(x)[p] == 1 <==> IsRise(x, p)
  {
    var padded := [false] + x;
    assert padded[p + 1] == x[p];
    assert p > 0 ==> padded[p] == x[p - 1];
  }

  lemma {:induction false} FallDiffAt(x: seq<bool>, q: int)
    requires 0 <= q < |x|
    ensures |FallDiff(x)| == |x|
    ensures FallDiff(x)[q] == -1 <==> IsLast(x, q)
  {
    var padded := x + [false];
    assert padded[q] == x[q];
    assert q + 1 < |x| ==> padded[q + 1] == x[q + 1];
  }

  /** Positions over a stretch without a match are the positions after it. */
  lemma {:induction false} PositionsSkip(d: seq<int>, v: int, a: nat, b: nat)
    requires a <= b <= |d|
    requires forall p :: a <= p < b ==> d[p] != v
    ensures Positions(d, v, a) == Positions(d, v, b)
    decreases b - a
  {
    if a < b {
      PositionsSkip(d, v, a + 1, b);
    }
  }

  /** The end of the run of `true` that contains position k. */
  function RunEnd(x: seq<bool>, k: nat): (m: nat)
    requires k < |x| && x[k]
    ensures k < m <= |x|
    ensures forall j :: k <= j < m ==> x[j]
    ensures m == |x| || !x[m]
    decreases |x| - k
  {
    if k + 1 == |x| || !x[k + 1] then k + 1 else RunEnd(x, k + 1)
  }

  /** Every position from k on that matches is listed. */
  lemma {:induction false} PositionsComplete(d: seq<int>, v: int, k: nat, p: int)
    requires k <= p < |d| && d[p] == v
    ensures p in Positions(d, v, k)
    decreases |d| - k
  {
    if k < p {
      PositionsComplete(d, v, k + 1, p);
    }
  }

  /**
   * Rising positions r and last-true positions f that pair up run by run:
   * each r[i] <= f[i] spans only `true`, and later pairs start past f[i] + 1.
   */
  ghost predicate Paired(x: seq<bool>, r: seq<int>, f: seq<int>)
  {
    && |r| == |f|
    && (forall i :: 0 <= i < |r| ==> 0 <= r[i] <= f[i] < |x| && TrueOn(x, r[i], f[i] + 1))
    && (forall i, j :: 0 <= i < j < |r| ==> f[i] + 1 < r[j])
  }

  /** A run [k, m) in front of pairs that all start past m. */
  lemma {:induction false} PairedCons(x: seq<bool>, k: int, m: int, r: seq<int>, f: seq<int>)
    requires 0 <= k < m <= |x| && TrueOn(x, k, m)
    requires Paired(x, r, f)
    requires forall i :: 0 <= i < |r| ==> m < r[i]
    ensures Paired(x, [k] + r, [m - 1] + f)
  {
    var r2, f2 := [k] + r, [m - 1] + f;
    forall i, j | 0 <= i < j < |r2| ensures f2[i] + 1 < r2[j] {
      if i > 0 {
        assert f2[i] == f[i - 1] && r2[j] == r[j - 1];
      } else {
        assert r2[j] == r[j - 1];
      }
    }
    forall i | 0 <= i < |r2| ensures 0 <= r2[i] <= f2[i] < |x| && TrueOn(x, r2[i], f2[i] + 1) {
      if i > 0 {
        assert f2[i] == f[i - 1] && r2[i] == r[i - 1];
      }
    }
  }

  /** `rd` marks exactly the rising positions of `x` with 1. */
  ghost predicate MarksRises(x: seq<bool>, rd: seq<int>)
  {
    |rd| == |x| && forall p :: 0 <= p < |x| ==> (rd[p] == 1 <==> IsRise(x, p))
  }

  /** `fd` marks exactly the last-true positions of `x` with -1. */
  ghost predicate MarksLasts(x: seq<bool>, fd: seq<int>)
  {
    |fd| == |x| && forall q :: 0 <= q < |x| ==> (fd[q] == -1 <==> IsLast(x, q))
  }

  lemma {:induction false} DiffsMark(x: seq<bool>)
    ensures MarksRises(x, RiseDiff(x)) && MarksLasts(x, FallDiff(x))
  {
    if |x| > 0 { RiseDiffAt(x, 0); FallDiffAt(x, 0); }
    forall p | 0 <= p < |x| ensures RiseDiff(x)[p] == 1 <==> IsRise(x, p) {
      RiseDiffAt(x, p);
    }
    forall q | 0 <= q < |x| ensures FallDiff(x)[q] == -1 <==> IsLast(x, q) {
      FallDiffAt(x, q);
    }
  }

  /**
   * From a position k that no run straddles on, the rising positions and the
   * last-true positions pair up run by run.
   */
  lemma {:induction false} PairFrom(x: seq<bool>, rd: seq<int>, fd: seq<int>, k: nat)
    requires MarksRises(x, rd) && MarksLasts(x, fd)
    requires k <= |x|
    requires !(0 < k < |x| && x[k - 1] && x[k])
    ensures Paired(x, Positions(rd, 1, k), Positions(fd, -1, k))
    decreases |x| - k
  {
    if k == |x| {
    } else if !x[k] {
      PairFrom(x, rd, fd, k + 1);
    } else {
      var m := RunEnd(x, k);
      PairFrom(x, rd, fd, m);
      PairStep(x, rd, fd, k, m);
    }
  }

  /** The run [k, m) put in front of the pairs found from m on. */
  lemma {:induction false} PairStep(x: seq<bool>, rd: seq<int>, fd: seq<int>, k: nat, m: nat)
    requires MarksRises(x, rd) && MarksLasts(x, fd)
    requires k < m <= |x| && TrueOn(x, k, m) && (k == 0 || !x[k - 1])
    requires m == |x| || !x[m]
    requires Paired(x, Positions(rd, 1, m), Positions(fd, -1, m))
    ensures Paired(x, Positions(rd, 1, k), Positions(fd, -1, k))
  {
    var r, f := Positions(rd, 1, m), Positions(fd, -1, m);
    RisesOfRun(x, rd, k, m);
    LastsOfRun(x, fd, k, m);
    PairedCons(x, k, m, r, f);
  }

  /** A run [k, m) contributes exactly the rise k, and later rises lie past m. */
  lemma {:induction false} RisesOfRun(x: seq<bool>, rd: seq<int>, k: nat, m: nat)
    requires MarksRises(x, rd)
    requires k < m <= |x|
    requires TrueOn(x, k, m) && (k == 0 || !x[k - 1])
    ensures Positions(rd, 1, k) == [k] + Positions(rd, 1, m)
    ensures forall i :: 0 <= i < |Positions(rd, 1, m)| ==> m < Positions(rd, 1, m)[i]
  {
    assert rd[k] == 1 by {
      assert IsRise(x, k);
    }
    assert forall p :: k + 1 <= p < m ==> rd[p] != 1 by {
      forall p | k + 1 <= p < m ensures !IsRise(x, p) { assert x[p - 1]; }
    }
    PositionsSkip(rd, 1, k + 1, m);
    if m < |x| {
      assert rd[m] != 1 by {
        assert x[m - 1];
      }
      assert Positions(rd, 1, m) == Positions(rd, 1, m + 1);
    }
  }

  /** A run [k, m) contributes exactly the last `true` m - 1. */
  lemma {:induction false} LastsOfRun(x: seq<bool>, fd: seq<int>, k: nat, m: nat)
    requires MarksLasts(x, fd)
    requires k < m <= |x|
    requires TrueOn(x, k, m) && (m == |x| || !x[m])
    ensures Positions(fd, -1, k) == [m - 1] + Positions(fd, -1, m)
  {
    assert forall q :: k <= q < m - 1 ==> fd[q] != -1 by {
      forall q | k <= q < m - 1 ensures !IsLast(x, q) { assert x[q + 1]; }
    }
    PositionsSkip(fd, -1, k, m - 1);
    assert fd[m - 1] == -1 by {
      assert IsLast(x, m - 1);
    }
  }

  /** Every `true` has a rising position at or before it with only `true` in between. */
  lemma {:induction false} RiseBefore(x: seq<bool>, j: nat) returns (p: nat)
    requires j < |x| && x[j]
    ensures IsRise(x, p) && p <= j
    ensures forall k :: p <= k <= j ==> x[k]
  {
    if j == 0 || !x[j - 1] {
      p := j;
    } else {
      p := RiseBefore(x, j - 1);
    }
  }

  /** The diff-based starts and ends of segment_basic are exactly the runs of `x`. */
  lemma {:induction false} RunsOfDiffs(x: seq<bool>)
    ensures IsRuns(x, Rising(x), PlusOne(LastTrue(x)))
  {
    DiffsMark(x);
    RunsOfMarks(x, RiseDiff(x), FallDiff(x));
  }

  /** Listing the marked rises and the marked last positions, plus one, gives the runs. */
  lemma {:induction false} RunsOfMarks(x: seq<bool>, rd: seq<int>, fd: seq<int>)
    requires MarksRises(x, rd) && MarksLasts(x, fd)
    ensures IsRuns(x, Positions(rd, 1, 0), PlusOne(Positions(fd, -1, 0)))
  {
    var r, f := Positions(rd, 1, 0), Positions(fd, -1, 0);
    PairFrom(x, rd, fd, 0);
    assert forall i :: 0 <= i < |r| ==> IsRise(x, r[i]) && IsLast(x, f[i]) by {
      forall i | 0 <= i < |r| ensures IsRise(x, r[i]) && IsLast(x, f[i]) {
        assert rd[r[i]] == 1 && fd[f[i]] == -1;
      }
    }
    assert forall j {:trigger Covered(r, PlusOne(f), j)} :: 0 <= j < |x| && x[j] ==> Covered(r, PlusOne(f), j) by {
      forall j | 0 <= j < |x| && x[j] ensures Covered(r, PlusOne(f), j) {
        CoveredByMarks(x, rd, fd, j);
      }
    }
    RunsOfPairs(x, r, f);
  }

  /** Paired rises and last positions that cover every `true` are the runs, ends one past the last. */
  lemma {:induction false} RunsOfPairs(x: seq<bool>, r: seq<int>, f: seq<int>)
    requires Paired(x, r, f)
    requires forall i :: 0 <= i < |r| ==> IsRise(x, r[i]) && IsLast(x, f[i])
    requires forall j {:trigger Covered(r, PlusOne(f), j)} :: 0 <= j < |x| && x[j] ==> Covered(r, PlusOne(f), j)
    ensures IsRuns(x, r, PlusOne(f))
  {
    var e := PlusOne(f);
    assert forall i :: 0 <= i < |r| ==> 0 <= r[i] < e[i] <= |x| && TrueOn(x, r[i], e[i]) by {
      forall i | 0 <= i < |r| ensures 0 <= r[i] < e[i] <= |x| && TrueOn(x, r[i], e[i]) {
        assert e[i] == f[i] + 1;
      }
    }
    assert forall i, j :: 0 <= i < j < |r| ==> e[i] < r[j] by {
      forall i, j | 0 <= i < j < |r| ensures e[i] < r[j] {
        assert e[i] == f[i] + 1;
      }
    }
    assert forall i :: 0 <= i < |r| && 0 < r[i] ==> !x[r[i] - 1] by {
      forall i | 0 <= i < |r| && 0 < r[i] ensures !x[r[i] - 1] {
        assert IsRise(x, r[i]);
      }
    }
    assert forall i :: 0 <= i < |r| && e[i] < |x| ==> !x[e[i]] by {
      forall i | 0 <= i < |r| && e[i] < |x| ensures !x[e[i]] {
        assert IsLast(x, f[i]) && e[i] == f[i] + 1;
      }
    }
  }

  /** Every `true` lies between a listed rise and the matching last `true`. */
  lemma {:induction false} CoveredByMarks(x: seq<bool>, rd: seq<int>, fd: seq<int>, j: int)
    requires MarksRises(x, rd) && MarksLasts(x, fd)
    requires Paired(x, Positions(rd, 1, 0), Positions(fd, -1, 0))
    requires 0 <= j < |x| && x[j]
    ensures Covered(Positions(rd, 1, 0), PlusOne(Positions(fd, -1, 0)), j)
  {
    var r, f := Positions(rd, 1, 0), Positions(fd, -1, 0);
    var p := RiseBefore(x, j);
    PositionsComplete(rd, 1, 0, p);
    var i :| 0 <= i < |r| && r[i] == p;
    assert IsLast(x, f[i]);
    if f[i] < j {
      assert false;
    }
    assert r[i] <= j < PlusOne(f)[i];
  }

  /** Without a time index, segment_basic returns the runs of `x`. */
  lemma {:induction false} DefaultRuns(x: seq<bool>)
    ensures IsRuns(x, SegmentBasic(x, None).starts, SegmentBasic(x, None).ends)
  {
    RunsOfDiffs(x);
    GatherRange(|x|, Rising(x));
    GatherRange(|x|, LastTrue(x));
  }

  // ---------------------------------------------------------------------
  // The run decomposition of a signal is unique

  /** Between the end of run n-1 (or 0) and the start of run n nothing is `true`. */
  lemma {:induction false} GapBefore(x: seq<bool>, s: seq<int>, e: seq<int>, n: nat, j: int)
    requires IsRuns(x, s, e)
    requires n <= |s|
    requires (if n == 0 then 0 else e[n - 1]) <= j < (if n == |s| then |x| else s[n])
    ensures !x[j]
  {
    forall i | 0 <= i < |s| ensures !(s[i] <= j < e[i]) {
      if i < n - 1 {
        assert e[i] < s[n - 1];
      } else if n < i {
        assert e[n] < s[i];
      }
    }
    assert !Covered(s, e, j);
  }

  /** Two run decompositions that agree up to run k agree on run k too. */
  lemma {:induction false} RunAgreesAt(x: seq<bool>, s1: seq<int>, e1: seq<int>, s2: seq<int>, e2: seq<int>, k: nat)
    requires IsRuns(x, s1, e1) && IsRuns(x, s2, e2)
    requires k < |s1| && k < |s2|
    requires k > 0 ==> e1[k - 1] == e2[k - 1]
    ensures s1[k] == s2[k] && e1[k] == e2[k]
  {
    if s1[k] < s2[k] {
      GapBefore(x, s2, e2, k, s1[k]);
      assert false;
    } else if s2[k] < s1[k] {
      GapBefore(x, s1, e1, k, s2[k]);
      assert false;
    }
  }

  /** Two run decompositions of one signal agree on their first n runs. */
  lemma {:induction false} RunsAgree(x: seq<bool>, s1: seq<int>, e1: seq<int>, s2: seq<int>, e2: seq<int>, n: nat)
    requires IsRuns(x, s1, e1) && IsRuns(x, s2, e2)
    requires n <= |s1| && n <= |s2|
    ensures s1[..n] == s2[..n] && e1[..n] == e2[..n]
  {
    if n > 0 {
      var k := n - 1;
      RunsAgree(x, s1, e1, s2, e2, k);
      assert k > 0 ==> e1[k - 1] == e2[k - 1] by {
        if k > 0 { assert e1[..k][k - 1] == e2[..k][k - 1]; }
      }
      RunAgreesAt(x, s1, e1, s2, e2, k);
      assert s1[..n] == s1[..k] + [s1[k]] && s2[..n] == s2[..k] + [s2[k]];
      assert e1[..n] == e1[..k] + [e1[k]] && e2[..n] == e2[..k] + [e2[k]];
    }
  }

  /** A signal has exactly one decomposition into runs. */
  lemma {:induction false} RunsUnique(x: seq<bool>, s1: seq<int>, e1: seq<int>, s2: seq<int>, e2: seq<int>)
    requires IsRuns(x, s1, e1) && IsRuns(x, s2, e2)
    ensures s1 == s2 && e1 == e2
  {
    if |s1| < |s2| {
      var n := |s1|;
      RunsAgree(x, s1, e1, s2, e2, n);
      assert n > 0 ==> e1[n - 1] == e2[n - 1] by {
        if n > 0 { assert e1[..n][n - 1] == e2[..n][n - 1]; }
      }
      GapBefore(x, s1, e1, n, s2[n]);
      assert false;
    } else if |s2| < |s1| {
      var n := |s2|;
      RunsAgree(x, s2, e2, s1, e1, n);
      assert n > 0 ==> e1[n - 1] == e2[n - 1] by {
        if n > 0 { assert e1[..n][n - 1] == e2[..n][n - 1]; }
      }
      GapBefore(x, s2, e2, n, s1[n]);
      assert false;
    } else {
      RunsAgree(x, s1, e1, s2, e2, |s1|);
      assert s1 == s1[..|s1|] && s2 == s2[..|s2|];
      assert e1 == e1[..|e1|] && e2 == e2[..|e2|];
    }
  }

  // ---------------------------------------------------------------------
  // Consequences

  /** With a supplied index, every start is `t` at the default start and every end is `t` at the last `true`, plus one. */
  lemma {:induction false} SuppliedIndex(x: seq<bool>, t: seq<int>)
    requires |t| >= |x|
    ensures var d, r := SegmentBasic(x, None), SegmentBasic(x, Some(t));
      && |r.starts| == |d.starts| == |r.ends| == |d.ends|
      && forall i :: 0 <= i < |d.starts| ==>
           0 <= d.starts[i] < d.ends[i] <= |x|
           && r.starts[i] == t[d.starts[i]] && r.ends[i] == t[d.ends[i] - 1] + 1
  {
    var rises, lasts := Rising(x), LastTrue(x);
    GatherRange(|x|, rises);
    GatherRange(|x|, lasts);
  }

  /** A signal with no `true` has no runs. */
  lemma {:induction false} AllFalse(n: nat)
    ensures SegmentBasic(seq(n, _ => false), None) == Segments([], [])
  {
    var x := seq(n, _ => false);
    var r := SegmentBasic(x, None);
    DefaultRuns(x);
    RunsEmptyIff(x, r.starts, r.ends);
  }

  /** A signal has no runs exactly when none of its samples is `true`. */
  lemma {:induction false} RunsEmptyIff(x: seq<bool>, s: seq<int>, e: seq<int>)
    requires IsRuns(x, s, e)
    ensures |s| == 0 <==> forall j :: 0 <= j < |x| ==> !x[j]
  {
    if |s| > 0 {
      assert x[s[0]];
    } else {
      forall j | 0 <= j < |x| ensures !x[j] {
        assert x[j] ==> Covered(s, e, j);
      }
    }
  }

  /** A signal that is `true` exactly on [a, b) has the one run [a, b). */
  lemma {:induction false} SingleRun(x: seq<bool>, a: int, b: int)
    requires 0 <= a < b <= |x|
    requires forall j :: 0 <= j < |x| ==> (x[j] <==> a <= j < b)
    ensures SegmentBasic(x, None) == Segments([a], [b])
  {
    var r := SegmentBasic(x, None);
    DefaultRuns(x);
    forall j | 0 <= j < |x| && x[j] ensures Covered([a], [b], j) {
      assert [a][0] <= j < [b][0];
    }
    assert IsRuns(x, [a], [b]);
    RunsUnique(x, r.starts, r.ends, [a], [b]);
  }

  /** A non-empty signal that is all `true` is one run [0, n). */
  lemma {:induction false} AllTrue(n: nat)
    requires n > 0
    ensures SegmentBasic(seq(n, _ => true), None) == Segments([0], [n])
  {
    SingleRun(seq(n, _ => true), 0, n);
  }

  /** The example of segment_basic's documentation, without and with a time index. */
  lemma {:induction false} DocExample(x: seq<bool>, t: seq<int>)
    requires x == [false, false, false, true, true, false] && t == [10, 11, 12, 13, 14, 15]
    ensures SegmentBasic(x, None) == Segments([3], [5])
    ensures SegmentBasic(x, Some(t)) == Segments([13], [15])
  {
    SingleRun(x, 3, 5);
    SuppliedIndex(x, t);
  }

  /**
   * Because the +1 is applied after mapping, an end is not the index value
   * just past the run when the index is not consecutive.
   */
  lemma {:induction false} EndIsMappedPlusOne(x: seq<bool>, t: seq<int>)
    requires x == [true, false, false] && t == [0, 10, 20]
    ensures SegmentBasic(x, Some(t)) == Segments([0], [1])
  {
    SingleRun(x, 0, 1);
    SuppliedIndex(x, t);
  }
}
