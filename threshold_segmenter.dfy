/**
 * segment_by_threshold of time_series.py: the runs where a signal is strictly
 * above a threshold, each widened to the gap around it and given the position
 * and value of its (first) peak. Signal values are compared and maximised
 * only, so they are modelled as integers.
 */
module ThresholdSegmenter {
  import opened Wrappers
  import opened RunSegmenter

  /** One row [start, onset, peak, offset, end] of the segment table. */
  datatype Row = Row(start: int, onset: int, peak: int, offset: int, end: int)

  /** `x > threshold`, element by element (strict). */
  function Above(x: seq<int>, threshold: int): (b: seq<bool>)
  {
    seq(|x|, i requires 0 <= i < |x| => x[i] > threshold)
  }

  /** onsets, offsets = segment_basic(x > threshold): the maximal runs above the threshold. */
  function ActiveRuns(x: seq<int>, threshold: int): (r: Segments)
    ensures |r.starts| == |r.ends|
    ensures forall i :: 0 <= i < |r.starts| ==> 0 <= r.starts[i] < r.ends[i] <= |x|
  {
    SegmentBasic(Above(x, threshold), None)
  }

  /** The time index in use: the supplied one, or np.arange(len(x) + 1). */
  function TimeIndex(x: seq<int>, t: Option<seq<int>>): (tt: seq<int>)
    requires t.Some? ==> |t.value| > |x|
    ensures |tt| > |x|
    ensures t.None? ==> forall i :: 0 <= i < |tt| ==> tt[i] == i
  {
    if t.None? then Range(|x| + 1) else t.value
  }

  /** np.argmax: the position of the first maximum. */
  function ArgMax(s: seq<int>): (k: nat)
    requires |s| > 0
    ensures k < |s|
    ensures forall j :: 0 <= j < |s| ==> s[j] <= s[k]
    ensures forall j :: 0 <= j < k ==> s[j] < s[k]
  {
    if |s| == 1 then 0
    else
      var k := ArgMax(s[..|s| - 1]);
      if s[|s| - 1] > s[k] then |s| - 1 else k
  }

  /** np.max. */
  function Max(s: seq<int>): (m: int)
    requires |s| > 0
    ensures m in s
    ensures forall j :: 0 <= j < |s| ==> s[j] <= m
  {
    if |s| == 1 then s[0]
    else
      var m := Max(s[1..]);
      if s[0] >= m then s[0] else m
  }

  /** p is the lowest position of [lo, hi) at which x attains its maximum over [lo, hi). */
  ghost predicate IsFirstMax(x: seq<int>, lo: int, hi: int, p: int)
  {
    && 0 <= lo <= p < hi <= |x|
    && (forall j :: lo <= j < hi ==> x[j] <= x[p])
    && (forall j :: lo <= j < p ==> x[j] < x[p])
  }

  /** onset + argmax(x[onset:offset]) is the first peak of the window, and max gives its value. */
  lemma {:induction false} WindowPeak(x: seq<int>, lo: int, hi: int)
    requires 0 <= lo < hi <= |x|
    ensures IsFirstMax(x, lo, hi, lo + ArgMax(x[lo..hi]))
    ensures Max(x[lo..hi]) == x[lo + ArgMax(x[lo..hi])]
  {
    var w := x[lo..hi];
    var k := ArgMax(w);
    forall j | lo <= j < hi ensures x[j] <= x[lo + k] {
      assert w[j - lo] == x[j];
    }
    forall j | lo <= j < lo + k ensures x[j] < x[lo + k] {
      assert w[j - lo] == x[j];
    }
    var m := Max(w);
    var i :| 0 <= i < |w| && w[i] == m;
    assert w[k] == x[lo + k];
  }

  /** Within a row, start <= onset <= peak < offset <= end. */
  predicate Ordered(r: Row)
  {
    r.start <= r.onset <= r.peak < r.offset <= r.end
  }

  /** No run lies above the threshold exactly when no sample exceeds it. */
  lemma {:induction false} NoRunsIffBelow(x: seq<int>, threshold: int)
    ensures |ActiveRuns(x, threshold).starts| == 0 <==> forall j :: 0 <= j < |x| ==> x[j] <= threshold
  {
    var runs, above := ActiveRuns(x, threshold), Above(x, threshold);
    assert |runs.starts| == 0 <==> forall j :: 0 <= j < |x| ==> !above[j] by {
      DefaultRuns(above);
      RunsEmptyIff(above, runs.starts, runs.ends);
    }
    assert forall j :: 0 <= j < |x| ==> (above[j] <==> x[j] > threshold);
  }

  /** Every sample of a run lies above the threshold. */
  lemma {:induction false} RunIsAbove(x: seq<int>, threshold: int, i: int, j: int)
    requires 0 <= i < |ActiveRuns(x, threshold).starts|
    requires ActiveRuns(x, threshold).starts[i] <= j < ActiveRuns(x, threshold).ends[i]
    ensures x[j] > threshold
  {
    var runs, above := ActiveRuns(x, threshold), Above(x, threshold);
    DefaultRuns(above);
    assert TrueOn(above, runs.starts[i], runs.ends[i]);
    assert above[j];
  }

  /** onset + np.argmax(x[onset:offset]): the first position of the window's maximum. */
  function FirstPeak(x: seq<int>, lo: int, hi: int): (p: int)
    requires 0 <= lo < hi <= |x|
    ensures IsFirstMax(x, lo, hi, p)
  {
    WindowPeak(x, lo, hi);
    lo + ArgMax(x[lo..hi])
  }

  /** np.max(x[onset:offset]): the sample at the first peak, at least every sample of the window. */
  function PeakValue(x: seq<int>, lo: int, hi: int): (v: int)
    requires 0 <= lo < hi <= |x|
    ensures v == x[FirstPeak(x, lo, hi)]
    ensures forall j :: lo <= j < hi ==> x[j] <= v
  {
    WindowPeak(x, lo, hi);
    Max(x[lo..hi])
  }

  /** The peak-finding loop: for each run, its first peak and the maximum there. */
  method Peaks(x: seq<int>, onsets: seq<int>, offsets: seq<int>) returns (peakTimes: seq<int>, peakValues: seq<int>)
    requires |onsets| == |offsets|
    requires forall i :: 0 <= i < |onsets| ==> 0 <= onsets[i] < offsets[i] <= |x|
    ensures |peakTimes| == |peakValues| == |onsets|
    ensures forall i :: 0 <= i < |onsets| ==>
      peakTimes[i] == FirstPeak(x, onsets[i], offsets[i]) && peakValues[i] == PeakValue(x, onsets[i], offsets[i])
  {
    peakTimes, peakValues := [], [];
    for i := 0 to |onsets|
      invariant |peakTimes| == |peakValues| == i
      invariant forall k :: 0 <= k < i ==>
        peakTimes[k] == FirstPeak(x, onsets[k], offsets[k]) && peakValues[k] == PeakValue(x, onsets[k], offsets[k])
    {
      peakTimes := peakTimes + [FirstPeak(x, onsets[i], offsets[i])];
      peakValues := peakValues + [PeakValue(x, onsets[i], offsets[i])];
    }
  }

  /**
   * starts = [0] + offsets[:-1] and ends = onsets[1:] + [len(x)]: each run's
   * start is the previous run's offset and its end the next run's onset, so
   * that start <= onset and offset <= end.
   */
  lemma {:induction false} ShiftedColumns(onsets: seq<int>, offsets: seq<int>, len: int)
    requires |onsets| == |offsets| > 0
    requires forall i :: 0 <= i < |onsets| ==> 0 <= onsets[i] < offsets[i] <= len
    requires forall i, j :: 0 <= i < j < |onsets| ==> offsets[i] < onsets[j]
    ensures var n := |onsets|;
      var starts, ends := [0] + offsets[..n - 1], onsets[1..] + [len];
      && |starts| == |ends| == n && starts[0] == 0 && ends[n - 1] == len
      && (forall i :: 0 <= i < n - 1 ==> starts[i + 1] == offsets[i] && ends[i] == onsets[i + 1])
      && (forall i :: 0 <= i < n ==> 0 <= starts[i] <= onsets[i] && offsets[i] <= ends[i] <= len)
  {
    var n := |onsets|;
    var starts, ends := [0] + offsets[..n - 1], onsets[1..] + [len];
    forall i | 0 <= i < n ensures 0 <= starts[i] <= onsets[i] && offsets[i] <= ends[i] <= len {
      if i > 0 {
        assert starts[i] == offsets[i - 1];
      }
      if i < n - 1 {
        assert ends[i] == onsets[i + 1];
      }
    }
  }

  /**
   * The segment table before mapping through a time index, and its peak
   * values: one row per maximal run of x > threshold, in order, whose onset
   * and offset are the run's bounds; start is the previous run's offset (0 for
   * the first) and end the next run's onset (len(x) for the last); peak is the
   * first position of the run's maximum, and the peak value is x there.
   */
  ghost predicate IsThresholdTable(x: seq<int>, threshold: int, rows: seq<Row>, peakValues: seq<int>)
  {
    var runs := ActiveRuns(x, threshold);
    IsTableOf(x, runs.starts, runs.ends, rows, peakValues)
  }

  /** The table of the runs with the given onsets and offsets (see IsThresholdTable). */
  ghost predicate IsTableOf(x: seq<int>, onsets: seq<int>, offsets: seq<int>, rows: seq<Row>, peakValues: seq<int>)
    requires |onsets| == |offsets|
  {
    && |rows| == |peakValues| == |onsets|
    && (forall i :: 0 <= i < |rows| ==> rows[i].onset == onsets[i] && rows[i].offset == offsets[i])
    && (|rows| > 0 ==> rows[0].start == 0 && rows[|rows| - 1].end == |x|)
    && (forall i :: 0 <= i < |rows| - 1 ==>
          rows[i + 1].start == rows[i].offset && rows[i].end == rows[i + 1].onset)
    && (forall i :: 0 <= i < |rows| ==> 0 <= rows[i].start && rows[i].end <= |x| && Ordered(rows[i]))
    && (forall i :: 0 <= i < |rows| ==>
          IsFirstMax(x, rows[i].onset, rows[i].offset, rows[i].peak) && peakValues[i] == x[rows[i].peak])
  }

  /**
   * The rows of the table from its columns: start is the previous offset (0
   * for the first row), end the next onset (len for the last row).
   */
  function Assemble(onsets: seq<int>, offsets: seq<int>, peakTimes: seq<int>, len: int): (rows: seq<Row>)
    requires 0 < |onsets| == |offsets| == |peakTimes|
    ensures |rows| == |onsets|
    ensures forall i :: 0 <= i < |rows| ==>
      rows[i].onset == onsets[i] && rows[i].peak == peakTimes[i] && rows[i].offset == offsets[i]
  {
    var n := |onsets|;
    var starts, ends := [0] + offsets[..n - 1], onsets[1..] + [len];
    seq(n, i requires 0 <= i < n => Row(starts[i], onsets[i], peakTimes[i], offsets[i], ends[i]))
  }

  /** The start and end columns of Assemble link neighbouring rows and enclose each run. */
  lemma {:induction false} AssembleLinks(onsets: seq<int>, offsets: seq<int>, peakTimes: seq<int>, len: int)
    requires 0 < |onsets| == |offsets| == |peakTimes|
    requires forall i :: 0 <= i < |onsets| ==> 0 <= onsets[i] <= peakTimes[i] < offsets[i] <= len
    requires forall i, j :: 0 <= i < j < |onsets| ==> offsets[i] < onsets[j]
    ensures var rows := Assemble(onsets, offsets, peakTimes, len);
      && rows[0].start == 0 && rows[|rows| - 1].end == len
      && (forall i :: 0 <= i < |rows| - 1 ==>
            rows[i + 1].start == rows[i].offset && rows[i].end == rows[i + 1].onset)
      && (forall i :: 0 <= i < |rows| ==> 0 <= rows[i].start && rows[i].end <= len && Ordered(rows[i]))
  {
    var n := |onsets|;
    var starts, ends := [0] + offsets[..n - 1], onsets[1..] + [len];
    var rows := Assemble(onsets, offsets, peakTimes, len);
    ShiftedColumns(onsets, offsets, len);
    forall i | 0 <= i < n - 1
      ensures rows[i + 1].start == rows[i].offset && rows[i].end == rows[i + 1].onset
    {
      assert rows[i].end == ends[i] && rows[i + 1].start == starts[i + 1];
      assert starts[i + 1] == offsets[i] && ends[i] == onsets[i + 1];
    }
    forall i | 0 <= i < n ensures 0 <= rows[i].start && rows[i].end <= len && Ordered(rows[i]) {
      assert rows[i] == Row(starts[i], onsets[i], peakTimes[i], offsets[i], ends[i]);
    }
    assert rows[0].start == starts[0] && rows[n - 1].end == ends[n - 1];
  }

  /**
   * segment_by_threshold before the time index is applied: onsets and offsets from
   * segment_basic(x > threshold), the shifted start and end columns, and the
   * peak-finding loop, as rows of sample positions.
   */
  method IndexTable(x: seq<int>, threshold: int) returns (rows: seq<Row>, peakValues: seq<int>)
    ensures IsThresholdTable(x, threshold, rows, peakValues)
  {
    var runs := ActiveRuns(x, threshold);
    var onsets, offsets := runs.starts, runs.ends;
    if |onsets| == 0 {
      return [], [];
    }
    var peakTimes;
    peakTimes, peakValues := Peaks(x, onsets, offsets);
    rows := Assemble(onsets, offsets, peakTimes, |x|);
    SeparatedRuns(x, threshold);
    TableOfColumns(x, onsets, offsets, peakTimes, peakValues);
  }

  /** Separated runs, with the first peak of each, assemble into their table. */
  lemma {:induction false} TableOfColumns(x: seq<int>, onsets: seq<int>, offsets: seq<int>,
                                          peakTimes: seq<int>, peakValues: seq<int>)
    requires 0 < |onsets| == |offsets| == |peakTimes| == |peakValues|
    requires forall i :: 0 <= i < |onsets| ==> 0 <= onsets[i] < offsets[i] <= |x|
    requires forall i, j :: 0 <= i < j < |onsets| ==> offsets[i] < onsets[j]
    requires forall i :: 0 <= i < |onsets| ==>
      peakTimes[i] == FirstPeak(x, onsets[i], offsets[i]) && peakValues[i] == PeakValue(x, onsets[i], offsets[i])
    ensures IsTableOf(x, onsets, offsets, Assemble(onsets, offsets, peakTimes, |x|), peakValues)
  {
    var rows := Assemble(onsets, offsets, peakTimes, |x|);
    assert forall i :: 0 <= i < |onsets| ==>
      IsFirstMax(x, onsets[i], offsets[i], peakTimes[i]) && peakValues[i] == x[peakTimes[i]]
    by {
      forall i | 0 <= i < |onsets|
        ensures IsFirstMax(x, onsets[i], offsets[i], peakTimes[i]) && peakValues[i] == x[peakTimes[i]]
      {
        assert peakTimes[i] == FirstPeak(x, onsets[i], offsets[i]);
      }
    }
    assert forall i :: 0 <= i < |onsets| ==> onsets[i] <= peakTimes[i] < offsets[i] by {
      forall i | 0 <= i < |onsets| ensures onsets[i] <= peakTimes[i] < offsets[i] {
        assert IsFirstMax(x, onsets[i], offsets[i], peakTimes[i]);
      }
    }
    AssembleLinks(onsets, offsets, peakTimes, |x|);
    forall i | 0 <= i < |rows|
      ensures IsFirstMax(x, rows[i].onset, rows[i].offset, rows[i].peak) && peakValues[i] == x[rows[i].peak]
    {
      var r := rows[i];
      assert r.onset == onsets[i] && r.offset == offsets[i] && r.peak == peakTimes[i];
      assert IsFirstMax(x, onsets[i], offsets[i], peakTimes[i]);
    }
  }

  /** Maps every field of a row through the time index (`t[starts]`, `t[onsets]`, ...). */
  function MapRow(tt: seq<int>, r: Row): Row
    requires 0 <= r.start && r.end < |tt| && Ordered(r)
  {
    Row(tt[r.start], tt[r.onset], tt[r.peak], tt[r.offset], tt[r.end])
  }

  /** segments is rows with every field mapped through the time index tt. */
  predicate MappedRows(tt: seq<int>, rows: seq<Row>, segments: seq<Row>)
  {
    && |segments| == |rows|
    && forall i :: 0 <= i < |rows| ==>
         0 <= rows[i].start && rows[i].end < |tt| && Ordered(rows[i]) && segments[i] == MapRow(tt, rows[i])
  }

  /**
   * segment_by_threshold(x, threshold, t): the index table with every field
   * mapped through the time index; the peak values are not mapped.
   */
  method SegmentByThreshold(x: seq<int>, threshold: int, t: Option<seq<int>>)
    returns (segments: seq<Row>, peakValues: seq<int>)
    requires t.Some? ==> |t.value| > |x|
    ensures exists rows :: IsThresholdTable(x, threshold, rows, peakValues) && MappedRows(TimeIndex(x, t), rows, segments)
  {
    var tt := TimeIndex(x, t);
    var rows;
    rows, peakValues := IndexTable(x, threshold);
    segments := seq(|rows|, i requires 0 <= i < |rows| => MapRow(tt, rows[i]));
    assert MappedRows(tt, rows, segments);
  }

  /** Under the default time index the mapped table is the index table itself. */
  lemma {:induction false} DefaultIndexIsIdentity(x: seq<int>, rows: seq<Row>, segments: seq<Row>)
    requires MappedRows(TimeIndex(x, None), rows, segments)
    ensures segments == rows
  {
    forall i | 0 <= i < |rows| ensures segments[i] == rows[i] {
      assert segments[i] == MapRow(TimeIndex(x, None), rows[i]);
    }
  }

  /** The table is empty exactly when no sample is strictly above the threshold. */
  lemma {:induction false} TableEmptyIff(x: seq<int>, threshold: int, rows: seq<Row>, peakValues: seq<int>)
    requires IsThresholdTable(x, threshold, rows, peakValues)
    ensures |rows| == 0 <==> forall j :: 0 <= j < |x| ==> x[j] <= threshold
  {
    NoRunsIffBelow(x, threshold);
  }

  /** Every peak value is at least every sample of its run and strictly above the threshold. */
  lemma {:induction false} PeakValuesBound(x: seq<int>, threshold: int, rows: seq<Row>, peakValues: seq<int>)
    requires IsThresholdTable(x, threshold, rows, peakValues)
    ensures forall i, j :: 0 <= i < |rows| && rows[i].onset <= j < rows[i].offset ==> x[j] <= peakValues[i]
    ensures forall i :: 0 <= i < |rows| ==> peakValues[i] > threshold
  {
    forall i | 0 <= i < |rows| ensures peakValues[i] > threshold {
      RunIsAbove(x, threshold, i, rows[i].peak);
    }
  }

  /**
   * The isolation windows of neighbouring events overlap: the next start
   * (this offset) lies strictly before this end (the next onset).
   */
  lemma {:induction false} WindowsOverlap(x: seq<int>, threshold: int, rows: seq<Row>, peakValues: seq<int>)
    requires IsThresholdTable(x, threshold, rows, peakValues)
    ensures forall i :: 0 <= i < |rows| - 1 ==> rows[i + 1].start < rows[i].end
  {
    SeparatedRuns(x, threshold);
  }

  /** Two tables of one signal and threshold are equal: the table is determined. */
  lemma {:induction false} TableUnique(x: seq<int>, threshold: int, rows1: seq<Row>, values1: seq<int>, rows2: seq<Row>, values2: seq<int>)
    requires IsThresholdTable(x, threshold, rows1, values1)
    requires IsThresholdTable(x, threshold, rows2, values2)
    ensures rows1 == rows2 && values1 == values2
  {
    var n := |rows1|;
    forall i | 0 <= i < n ensures rows1[i] == rows2[i] && values1[i] == values2[i] {
      FirstMaxUnique(x, rows1[i].onset, rows1[i].offset, rows1[i].peak, rows2[i].peak);
      if i > 0 {
        assert rows1[i].start == rows1[i - 1].offset;
        assert rows2[i].start == rows2[i - 1].offset;
      }
      if i < n - 1 {
        assert rows1[i].end == rows1[i + 1].onset;
        assert rows2[i].end == rows2[i + 1].onset;
      }
    }
  }

  /** The onset column of a table. */
  function Onsets(rows: seq<Row>): seq<int>
  {
    seq(|rows|, i requires 0 <= i < |rows| => rows[i].onset)
  }

  /** The offset column of a table. */
  function Offsets(rows: seq<Row>): seq<int>
  {
    seq(|rows|, i requires 0 <= i < |rows| => rows[i].offset)
  }

  /** The onsets and offsets of a threshold table are the maximal runs of x > threshold. */
  lemma {:induction false} TableRowsAreRuns(x: seq<int>, threshold: int, rows: seq<Row>, peakValues: seq<int>)
    requires IsThresholdTable(x, threshold, rows, peakValues)
    ensures IsRuns(Above(x, threshold), Onsets(rows), Offsets(rows))
  {
    var runs := ActiveRuns(x, threshold);
    DefaultRuns(Above(x, threshold));
    assert Onsets(rows) == runs.starts;
    assert Offsets(rows) == runs.ends;
  }

  /** The runs of [0, 0, 5, 3, 0, 0, 8, 0] above 2 are [2, 4) and [6, 7). */
  lemma {:induction false} ExampleRuns(x: seq<int>)
    requires x == [0, 0, 5, 3, 0, 0, 8, 0]
    ensures ActiveRuns(x, 2) == Segments([2, 6], [4, 7])
  {
    var above := Above(x, 2);
    assert above == [false, false, true, true, false, false, true, false];
    var s, e := [2, 6], [4, 7];
    assert TrueOn(above, 2, 4) && TrueOn(above, 6, 7);
    assert s[0] <= 2 < 3 < e[0] && s[1] <= 6 < e[1];
    assert forall j :: 0 <= j < |above| && above[j] ==> j == 2 || j == 3 || j == 6;
    assert IsRuns(above, s, e);
    DefaultRuns(above);
    RunsUnique(above, SegmentBasic(above, None).starts, SegmentBasic(above, None).ends, s, e);
  }

  /** The table of [0, 0, 5, 3, 0, 0, 8, 0] above 2: two rows, peaks 5 and 8. */
  lemma {:induction false} ThresholdExample(x: seq<int>)
    requires x == [0, 0, 5, 3, 0, 0, 8, 0]
    ensures IsThresholdTable(x, 2, [Row(0, 2, 2, 4, 6), Row(4, 6, 6, 7, 8)], [5, 8])
  {
    ExampleRuns(x);
    ExampleColumns(x);
  }

  /** The rows of that table fit the runs [2, 4) and [6, 7) of x. */
  lemma {:induction false} ExampleColumns(x: seq<int>)
    requires x == [0, 0, 5, 3, 0, 0, 8, 0]
    ensures IsTableOf(x, [2, 6], [4, 7], [Row(0, 2, 2, 4, 6), Row(4, 6, 6, 7, 8)], [5, 8])
  {
    assert IsFirstMax(x, 2, 4, 2) && IsFirstMax(x, 6, 7, 6);
  }

  /** The first position of a maximum is unique. */
  lemma {:induction false} FirstMaxUnique(x: seq<int>, lo: int, hi: int, p: int, q: int)
    requires IsFirstMax(x, lo, hi, p) && IsFirstMax(x, lo, hi, q)
    ensures p == q
  {
    assert x[p] == x[q];
  }

  /** Consecutive runs are separated by at least one sample at or below the threshold. */
  lemma {:induction false} SeparatedRuns(x: seq<int>, threshold: int)
    ensures var runs := ActiveRuns(x, threshold);
      forall i, j :: 0 <= i < j < |runs.starts| ==> runs.ends[i] < runs.starts[j]
  {
    DefaultRuns(Above(x, threshold));
  }
}
