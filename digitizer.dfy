/** Reduction of a thresholded image to a one-dimensional signal, column by
    column: `digitalize_lead` (threshold 1, midpoint of the first and last
    foreground rows, amplitude and time scaling) and the dialog's
    `digitalize_selected` (threshold 127, mean foreground row). Grey levels
    come from OpenCV's `COLOR_BGR2GRAY` and are taken as an input grid. */
module Digitizer {
  import Coordinates
  import Background

  /** `np.where(binary[:n, x] == 255)[0]`: the rows, among the first `n`, of
      column `x` whose pixel `cv2.threshold(gray, t, 255, THRESH_BINARY_INV)`
      turns into foreground, that is whose grey level is at most `t`; in
      increasing order. */
  function InkRows(g: seq<seq<int>>, width: nat, t: int, x: nat, n: nat): (rows: seq<nat>)
    requires Coordinates.Rectangular(g, width) && x < width && n <= |g|
    ensures forall k :: 0 <= k < |rows| ==> rows[k] < n && g[rows[k]][x] <= t
    ensures forall k, l :: 0 <= k < l < |rows| ==> rows[k] < rows[l]
  {
    if n == 0 then []
    else InkRows(g, width, t, x, n - 1) + (if g[n - 1][x] <= t then [n - 1] else [])
  }

  /** The row scan misses no foreground row. */
  lemma {:induction false} InkRowsComplete(g: seq<seq<int>>, width: nat, t: int, x: nat, n: nat, i: nat)
    requires Coordinates.Rectangular(g, width) && x < width && n <= |g|
    requires i < n && g[i][x] <= t
    ensures i in InkRows(g, width, t, x, n)
  {
    if i < n - 1 {
      InkRowsComplete(g, width, t, x, n - 1, i);
    }
  }

  /** Column `x` holds at least one foreground pixel. */
  predicate HasInk(g: seq<seq<int>>, width: nat, t: int, x: nat)
    requires Coordinates.Rectangular(g, width) && x < width
  {
    exists i :: 0 <= i < |g| && g[i][x] <= t
  }

  /** A column holding foreground yields at least one row. */
  lemma InkYieldsRows(g: seq<seq<int>>, width: nat, t: int, x: nat)
    requires Coordinates.Rectangular(g, width) && x < width && HasInk(g, width, t, x)
    ensures |InkRows(g, width, t, x, |g|)| > 0
  {
    var i :| 0 <= i < |g| && g[i][x] <= t;
    InkRowsComplete(g, width, t, x, |g|, i);
  }

  /** A row the scan yields is a witness of foreground. */
  lemma RowsShowInk(g: seq<seq<int>>, width: nat, t: int, x: nat)
    requires Coordinates.Rectangular(g, width) && x < width
    ensures |InkRows(g, width, t, x, |g|)| > 0 ==> HasInk(g, width, t, x)
  {
    var rows := InkRows(g, width, t, x, |g|);
    if |rows| > 0 {
      assert g[rows[0]][x] <= t;
    }
  }

  /** All foreground rows of column `x`; there are some exactly when the
      column holds foreground. */
  function ColumnRows(g: seq<seq<int>>, width: nat, t: int, x: nat): (rows: seq<nat>)
    requires Coordinates.Rectangular(g, width) && x < width
    ensures |rows| > 0 <==> HasInk(g, width, t, x)
  {
    RowsShowInk(g, width, t, x);
    if HasInk(g, width, t, x) then
      InkYieldsRows(g, width, t, x);
      InkRows(g, width, t, x, |g|)
    else
      InkRows(g, width, t, x, |g|)
  }

  /** The columns, among the first `n`, holding at least one foreground
      pixel, in increasing order. */
  function InkColumns(g: seq<seq<int>>, width: nat, t: int, n: nat): (cols: seq<nat>)
    requires Coordinates.Rectangular(g, width) && n <= width
    ensures |cols| <= n
    ensures forall k :: 0 <= k < |cols| ==> cols[k] < n && HasInk(g, width, t, cols[k])
    ensures forall k, l :: 0 <= k < l < |cols| ==> cols[k] < cols[l]
  {
    if n == 0 then []
    else InkColumns(g, width, t, n - 1) + (if HasInk(g, width, t, n - 1) then [n - 1] else [])
  }

  /** The column scan misses no column holding foreground. */
  lemma {:induction false} InkColumnsComplete(g: seq<seq<int>>, width: nat, t: int, n: nat, x: nat)
    requires Coordinates.Rectangular(g, width) && n <= width
    requires x < n && HasInk(g, width, t, x)
    ensures x in InkColumns(g, width, t, n)
  {
    if x < n - 1 {
      InkColumnsComplete(g, width, t, n - 1, x);
    }
  }

  /** A column whose only foreground pixel is in row `r`: the scan of the
      first `n` rows finds `r` once it has passed it, and nothing before. */
  lemma {:induction false} InkRowsSingle(g: seq<seq<int>>, width: nat, t: int, x: nat, r: nat, n: nat)
    requires Coordinates.Rectangular(g, width) && x < width && r < |g| && n <= |g| && g[r][x] <= t
    requires forall i :: 0 <= i < |g| && g[i][x] <= t ==> i == r
    ensures InkRows(g, width, t, x, n) == if r < n then [r] else []
  {
    if n > 0 {
      InkRowsSingle(g, width, t, x, r, n - 1);
      if n - 1 != r {
        assert !(g[n - 1][x] <= t);
      }
    }
  }

  /** A grid whose only foreground column is `x`. */
  lemma {:induction false} InkColumnsSingle(g: seq<seq<int>>, width: nat, t: int, x: nat, n: nat)
    requires Coordinates.Rectangular(g, width) && x < width && n <= width && HasInk(g, width, t, x)
    requires forall j :: 0 <= j < width && HasInk(g, width, t, j) ==> j == x
    ensures InkColumns(g, width, t, n) == if x < n then [x] else []
  {
    if n > 0 {
      InkColumnsSingle(g, width, t, x, n - 1);
      if n - 1 != x {
        assert !HasInk(g, width, t, n - 1);
      }
    }
  }

  /** The scaling of `digitalize_lead`: `max_amplitude`, `min_amplitude`,
      `time_scale`. */
  datatype Calibration = Calibration(minAmplitude: real, maxAmplitude: real, timeScale: real)

  /** The constants in the code: -1, 1 and 0.01 s per pixel. */
  const DefaultCalibration := Calibration(-1.0, 1.0, 0.01)

  /** One `(time, amplitude)` row of the digitised signal. */
  datatype Sample = Sample(time: real, amplitude: real)

  /** `x * time_scale`. */
  function SampleTime(x: nat, c: Calibration): real {
    x as real * c.timeScale
  }

  /** `max - (max - min) * (y / height)`. */
  function Amplitude(y: nat, height: nat, c: Calibration): real
    requires height > 0
  {
    c.maxAmplitude - (c.maxAmplitude - c.minAmplitude) * (y as real / height as real)
  }

  /** `(y_indices[0] + y_indices[-1]) // 2`. */
  function MidRow(rows: seq<nat>): nat
    requires |rows| > 0
  {
    (rows[0] + rows[|rows| - 1]) / 2
  }

  /** The sample `digitalize_lead` emits for a column holding foreground. */
  function LeadSample(g: seq<seq<int>>, width: nat, c: Calibration, x: nat): Sample
    requires Coordinates.Rectangular(g, width) && x < width && HasInk(g, width, 1, x)
  {
    var rows := ColumnRows(g, width, 1, x);
    Sample(SampleTime(x, c), Amplitude(MidRow(rows), |g|, c))
  }

  /** What column `x` contributes: its sample, or nothing. */
  function LeadStep(g: seq<seq<int>>, width: nat, c: Calibration, x: nat): seq<Sample>
    requires Coordinates.Rectangular(g, width) && x < width
  {
    if HasInk(g, width, 1, x) then [LeadSample(g, width, c, x)] else []
  }

  /** The signal `digitalize_lead` has built after its first `n` columns. */
  function LeadSignal(g: seq<seq<int>>, width: nat, c: Calibration, n: nat): seq<Sample>
    requires Coordinates.Rectangular(g, width) && n <= width
  {
    if n == 0 then [] else LeadSignal(g, width, c, n - 1) + LeadStep(g, width, c, n - 1)
  }

  /** `digitalize_lead`'s loop `for x in range(width)`, appending one sample
      per column holding foreground. */
  method DigitalizeLead(g: seq<seq<int>>, width: nat, c: Calibration) returns (signal: seq<Sample>)
    requires Coordinates.Rectangular(g, width)
    ensures signal == LeadSignal(g, width, c, width)
  {
    signal := [];
    for x := 0 to width
      invariant signal == LeadSignal(g, width, c, x)
    {
      var yIndices := ColumnRows(g, width, 1, x);
      assert LeadSignal(g, width, c, x + 1) == signal + LeadStep(g, width, c, x);
      if |yIndices| > 0 {
        var y := MidRow(yIndices);
        var normalized := Amplitude(y, |g|, c);
        var time := SampleTime(x, c);
        assert LeadStep(g, width, c, x) == [Sample(time, normalized)];
        signal := signal + [Sample(time, normalized)];
      } else {
        assert LeadStep(g, width, c, x) == [];
        assert signal + [] == signal;
      }
    }
  }

  /** The signal is exactly one sample per column holding foreground, taken
      in increasing column order. */
  lemma {:induction false} LeadSignalPerInkColumn(g: seq<seq<int>>, width: nat, c: Calibration, n: nat)
    requires Coordinates.Rectangular(g, width) && n <= width
    ensures var s, cols := LeadSignal(g, width, c, n), InkColumns(g, width, 1, n);
            |s| == |cols| && forall k :: 0 <= k < |s| ==> s[k] == LeadSample(g, width, c, cols[k])
  {
    if n > 0 {
      LeadSignalPerInkColumn(g, width, c, n - 1);
      var s, cols := LeadSignal(g, width, c, n), InkColumns(g, width, 1, n);
      var s0, cols0 := LeadSignal(g, width, c, n - 1), InkColumns(g, width, 1, n - 1);
      assert s == s0 + LeadStep(g, width, c, n - 1);
      assert cols == cols0 + (if HasInk(g, width, 1, n - 1) then [n - 1] else []);
      forall k | 0 <= k < |s|
        ensures s[k] == LeadSample(g, width, c, cols[k])
      {
        if k < |s0| {
          assert s[k] == s0[k] && cols[k] == cols0[k];
        }
      }
    }
  }

  /** At most one sample per column, and none at all when no column holds a
      foreground pixel. */
  lemma LeadSignalLength(g: seq<seq<int>>, width: nat, c: Calibration)
    requires Coordinates.Rectangular(g, width)
    ensures |LeadSignal(g, width, c, width)| <= width
    ensures (forall x :: 0 <= x < width ==> !HasInk(g, width, 1, x)) ==> LeadSignal(g, width, c, width) == []
  {
    LeadSignalPerInkColumn(g, width, c, width);
    var cols := InkColumns(g, width, 1, width);
    assert |cols| > 0 ==> cols[0] < width && HasInk(g, width, 1, cols[0]);
  }

  /** Samples come out in strictly increasing time, and a column holds
      foreground exactly when some sample carries its time. */
  lemma LeadSignalTimes(g: seq<seq<int>>, width: nat, c: Calibration)
    requires Coordinates.Rectangular(g, width) && c.timeScale > 0.0
    ensures var s := LeadSignal(g, width, c, width);
            forall k, l :: 0 <= k < l < |s| ==> s[k].time < s[l].time
    ensures var s := LeadSignal(g, width, c, width);
            forall x :: 0 <= x < width ==>
              (HasInk(g, width, 1, x) <==> exists k :: 0 <= k < |s| && s[k].time == SampleTime(x, c))
  {
    var s := LeadSignal(g, width, c, width);
    var cols := InkColumns(g, width, 1, width);
    LeadSignalPerInkColumn(g, width, c, width);
    forall k, l | 0 <= k < l < |s|
      ensures s[k].time < s[l].time
    {
      assert s[k].time == SampleTime(cols[k], c) && s[l].time == SampleTime(cols[l], c);
      TimeStrictlyIncreasing(cols[k], cols[l], c);
    }
    forall x | 0 <= x < width
      ensures HasInk(g, width, 1, x) <==> exists k :: 0 <= k < |s| && s[k].time == SampleTime(x, c)
    {
      if HasInk(g, width, 1, x) {
        InkColumnsComplete(g, width, 1, width, x);
        var k :| 0 <= k < |cols| && cols[k] == x;
        assert s[k].time == SampleTime(x, c);
      }
      if exists k :: 0 <= k < |s| && s[k].time == SampleTime(x, c) {
        var k :| 0 <= k < |s| && s[k].time == SampleTime(x, c);
        assert s[k].time == SampleTime(cols[k], c);
        TimeInjective(cols[k], x, c);
        assert HasInk(g, width, 1, cols[k]);
      }
    }
  }

  /** A later column is sampled at a later time. */
  lemma TimeStrictlyIncreasing(a: nat, b: nat, c: Calibration)
    requires a < b && c.timeScale > 0.0
    ensures SampleTime(a, c) < SampleTime(b, c)
  {
    var ts := c.timeScale;
    assert b as real * ts - a as real * ts == (b - a) as real * ts;
  }

  /** Distinct columns are sampled at distinct times. */
  lemma TimeInjective(a: nat, b: nat, c: Calibration)
    requires c.timeScale > 0.0 && SampleTime(a, c) == SampleTime(b, c)
    ensures a == b
  {
    if a < b { TimeStrictlyIncreasing(a, b, c); }
    if b < a { TimeStrictlyIncreasing(b, a, c); }
  }

  /** The representative row of a column lies between its first and last
      foreground rows, hence below the height. */
  lemma MidRowBounds(rows: seq<nat>)
    requires |rows| > 0
    requires forall k, l :: 0 <= k < l < |rows| ==> rows[k] < rows[l]
    ensures rows[0] <= MidRow(rows) <= rows[|rows| - 1]
  {
    assert |rows| > 1 ==> rows[0] < rows[|rows| - 1];
  }

  /** Every amplitude lies in (min, max] when min < max. */
  lemma LeadAmplitudeBounds(g: seq<seq<int>>, width: nat, c: Calibration)
    requires Coordinates.Rectangular(g, width) && c.minAmplitude < c.maxAmplitude
    ensures var s := LeadSignal(g, width, c, width);
            forall k :: 0 <= k < |s| ==> c.minAmplitude < s[k].amplitude <= c.maxAmplitude
  {
    var s := LeadSignal(g, width, c, width);
    var cols := InkColumns(g, width, 1, width);
    LeadSignalPerInkColumn(g, width, c, width);
    forall k | 0 <= k < |s|
      ensures c.minAmplitude < s[k].amplitude <= c.maxAmplitude
    {
      var rows := ColumnRows(g, width, 1, cols[k]);
      MidRowBounds(rows);
      AmplitudeBounds(MidRow(rows), |g|, c);
    }
  }

  lemma AmplitudeBounds(y: nat, height: nat, c: Calibration)
    requires y < height && c.minAmplitude < c.maxAmplitude
    ensures c.minAmplitude < Amplitude(y, height, c) <= c.maxAmplitude
  {
    var f := y as real / height as real;
    FractionBelowOne(y as real, height as real);
    var d := c.maxAmplitude - c.minAmplitude;
    ShrinkBounds(d, f);
    var p := d * f;
    assert 0.0 <= p < d;
    assert Amplitude(y, height, c) == c.maxAmplitude - p;
    assert c.maxAmplitude - p <= c.maxAmplitude;
    assert c.minAmplitude < c.maxAmplitude - p;
  }

  lemma FractionBelowOne(y: real, h: real)
    requires 0.0 <= y < h
    ensures 0.0 <= y / h < 1.0
  {
    assert y / h * h == y;
  }

  lemma ShrinkBounds(d: real, f: real)
    requires d > 0.0 && 0.0 <= f < 1.0
    ensures 0.0 <= d * f < d
  {
    var e := 1.0 - f;
    assert d * e > 0.0;
    assert d * f == d - d * e;
  }

  /** A grid whose only foreground pixel is at row `r`, column `x`: the
      scan finds that column alone, and that row alone in it. */
  lemma SinglePixelScan(g: seq<seq<int>>, width: nat, t: int, r: nat, x: nat)
    requires Coordinates.Rectangular(g, width) && r < |g| && x < width
    requires g[r][x] <= t
    requires forall i, j :: 0 <= i < |g| && 0 <= j < width && g[i][j] <= t ==> i == r && j == x
    ensures InkColumns(g, width, t, width) == [x]
    ensures ColumnRows(g, width, t, x) == [r]
  {
    InkRowsSingle(g, width, t, x, r, |g|);
    assert HasInk(g, width, t, x);
    InkColumnsSingle(g, width, t, x, width);
  }

  /** With the default scaling, a single foreground pixel at row `r`, column
      `x` of an `h`-row grid gives exactly `(x * 0.01, 1 - 2r/h)`. */
  lemma LeadSignalSinglePixel(g: seq<seq<int>>, width: nat, r: nat, x: nat)
    requires Coordinates.Rectangular(g, width) && r < |g| && x < width
    requires g[r][x] <= 1
    requires forall i, j :: 0 <= i < |g| && 0 <= j < width && g[i][j] <= 1 ==> i == r && j == x
    ensures LeadSignal(g, width, DefaultCalibration, width)
            == [Sample(x as real * 0.01, 1.0 - 2.0 * r as real / |g| as real)]
  {
    SinglePixelScan(g, width, 1, r, x);
    LeadSignalPerInkColumn(g, width, DefaultCalibration, width);
    var s := LeadSignal(g, width, DefaultCalibration, width);
    assert s == [LeadSample(g, width, DefaultCalibration, x)];
    assert MidRow([r]) == r;
    DefaultAmplitude(r, |g|);
  }

  /** The default scaling maps row `r` of `h` to `1 - 2r/h`. */
  lemma DefaultAmplitude(r: nat, h: nat)
    requires h > 0
    ensures Amplitude(r, h, DefaultCalibration) == 1.0 - 2.0 * r as real / h as real
  {
    var q := r as real / h as real;
    assert (1.0 - -1.0) * q == 2.0 * q;
    assert 2.0 * q == 2.0 * r as real / h as real;
  }

  /** A dialog signal entry: the column index and the mean foreground row. */
  datatype Trace = Trace(x: nat, y: real)

  function Sum(s: seq<nat>): nat {
    if |s| == 0 then 0 else Sum(s[..|s| - 1]) + s[|s| - 1]
  }

  /** `np.mean` of the foreground rows. */
  function Mean(rows: seq<nat>): real
    requires |rows| > 0
  {
    Sum(rows) as real / |rows| as real
  }

  /** Every element of `s` lies in `[lo, hi]`, so its sum lies between
      `|s| * lo` and `|s| * hi`. */
  lemma {:induction false} SumBounds(s: seq<nat>, lo: nat, hi: nat)
    requires forall k :: 0 <= k < |s| ==> lo <= s[k] <= hi
    ensures |s| * lo <= Sum(s) <= |s| * hi
  {
    if |s| > 0 {
      SumBounds(s[..|s| - 1], lo, hi);
      assert |s| * lo == (|s| - 1) * lo + lo;
      assert |s| * hi == (|s| - 1) * hi + hi;
    }
  }

  /** The mean of increasing rows lies between the first and the last. */
  lemma MeanBounds(rows: seq<nat>)
    requires |rows| > 0
    requires forall k, l :: 0 <= k < l < |rows| ==> rows[k] < rows[l]
    ensures rows[0] as real <= Mean(rows) <= rows[|rows| - 1] as real
  {
    var lo, hi := rows[0], rows[|rows| - 1];
    forall k | 0 <= k < |rows|
      ensures lo <= rows[k] <= hi
    {
      if 0 < k { assert rows[0] < rows[k]; }
      if k < |rows| - 1 { assert rows[k] < rows[|rows| - 1]; }
    }
    SumBounds(rows, lo, hi);
    RatioBounds(Sum(rows), |rows|, lo, hi);
  }

  /** A total between `count * lo` and `count * hi` has its average
      between `lo` and `hi`. */
  lemma RatioBounds(sum: nat, count: nat, lo: nat, hi: nat)
    requires count > 0 && count * lo <= sum <= count * hi
    ensures lo as real <= sum as real / count as real <= hi as real
  {
    var n := count as real;
    assert (count * lo) as real == n * lo as real;
    assert (count * hi) as real == n * hi as real;
    DivBounds(sum as real, n, lo as real, hi as real);
  }

  lemma DivBounds(s: real, n: real, lo: real, hi: real)
    requires n > 0.0 && n * lo <= s <= n * hi
    ensures lo <= s / n <= hi
  {
    assert s / n * n == s;
  }

  /** The entry the dialog appends for a column holding foreground. */
  function DialogTrace(g: seq<seq<int>>, width: nat, x: nat): Trace
    requires Coordinates.Rectangular(g, width) && x < width && HasInk(g, width, 127, x)
  {
    Trace(x, Mean(ColumnRows(g, width, 127, x)))
  }

  function DialogStep(g: seq<seq<int>>, width: nat, x: nat): seq<Trace>
    requires Coordinates.Rectangular(g, width) && x < width
  {
    if HasInk(g, width, 127, x) then [DialogTrace(g, width, x)] else []
  }

  /** The signal the dialog has built after its first `n` columns. */
  function DialogSignal(g: seq<seq<int>>, width: nat, n: nat): seq<Trace>
    requires Coordinates.Rectangular(g, width) && n <= width
  {
    if n == 0 then [] else DialogSignal(g, width, n - 1) + DialogStep(g, width, n - 1)
  }

  /** `digitalize_selected`'s loop over the columns of the thresholded
      region. */
  method DigitalizeSelected(g: seq<seq<int>>, width: nat) returns (signal: seq<Trace>)
    requires Coordinates.Rectangular(g, width)
    ensures signal == DialogSignal(g, width, width)
  {
    signal := [];
    for x := 0 to width
      invariant signal == DialogSignal(g, width, x)
    {
      var points := ColumnRows(g, width, 127, x);
      assert DialogSignal(g, width, x + 1) == signal + DialogStep(g, width, x);
      if |points| > 0 {
        var y := Sum(points) as real / |points| as real;
        signal := signal + [Trace(x, y)];
      }
    }
  }

  /** The dialog signal is exactly one entry per column holding foreground,
      taken in increasing column order. */
  lemma {:induction false} DialogSignalPerInkColumn(g: seq<seq<int>>, width: nat, n: nat)
    requires Coordinates.Rectangular(g, width) && n <= width
    ensures var s, cols := DialogSignal(g, width, n), InkColumns(g, width, 127, n);
            |s| == |cols| && forall k :: 0 <= k < |s| ==> s[k] == DialogTrace(g, width, cols[k])
  {
    if n > 0 {
      DialogSignalPerInkColumn(g, width, n - 1);
      var s, cols := DialogSignal(g, width, n), InkColumns(g, width, 127, n);
      var s0, cols0 := DialogSignal(g, width, n - 1), InkColumns(g, width, 127, n - 1);
      assert s == s0 + DialogStep(g, width, n - 1);
      assert cols == cols0 + (if HasInk(g, width, 127, n - 1) then [n - 1] else []);
      forall k | 0 <= k < |s|
        ensures s[k] == DialogTrace(g, width, cols[k])
      {
        if k < |s0| {
          assert s[k] == s0[k] && cols[k] == cols0[k];
        }
      }
    }
  }

  /** The entries carry the foreground columns, one each, in order. */
  lemma DialogSignalXs(g: seq<seq<int>>, width: nat)
    requires Coordinates.Rectangular(g, width)
    ensures var s, cols := DialogSignal(g, width, width), InkColumns(g, width, 127, width);
            |s| == |cols| && forall k :: 0 <= k < |s| ==> s[k].x == cols[k]
  {
    DialogSignalPerInkColumn(g, width, width);
  }

  /** Dialog entries come in strictly increasing column order, at most one
      per column. */
  lemma DialogColumnsIncrease(g: seq<seq<int>>, width: nat)
    requires Coordinates.Rectangular(g, width)
    ensures var s := DialogSignal(g, width, width);
            |s| <= width && forall k, l :: 0 <= k < l < |s| ==> s[k].x < s[l].x
  {
    var s := DialogSignal(g, width, width);
    var cols := InkColumns(g, width, 127, width);
    DialogSignalXs(g, width);
    forall k, l | 0 <= k < l < |s|
      ensures s[k].x < s[l].x
    {
      assert s[k].x == cols[k] && s[l].x == cols[l];
    }
  }

  /** A column holds foreground (grey at most 127) exactly when it has an
      entry. */
  lemma DialogColumnsExact(g: seq<seq<int>>, width: nat)
    requires Coordinates.Rectangular(g, width)
    ensures var s := DialogSignal(g, width, width);
            forall x :: 0 <= x < width ==> (HasInk(g, width, 127, x) <==> exists k :: 0 <= k < |s| && s[k].x == x)
  {
    var s := DialogSignal(g, width, width);
    var cols := InkColumns(g, width, 127, width);
    DialogSignalXs(g, width);
    forall x | 0 <= x < width
      ensures HasInk(g, width, 127, x) <==> exists k :: 0 <= k < |s| && s[k].x == x
    {
      if HasInk(g, width, 127, x) {
        InkColumnsComplete(g, width, 127, width, x);
        var k :| 0 <= k < |cols| && cols[k] == x;
        assert s[k].x == x;
      }
      if exists k :: 0 <= k < |s| && s[k].x == x {
        var k :| 0 <= k < |s| && s[k].x == x;
        assert s[k].x == cols[k];
      }
    }
  }

  /** Each entry's mean row lies between its column's first and last
      foreground rows. */
  lemma DialogSignalMeans(g: seq<seq<int>>, width: nat)
    requires Coordinates.Rectangular(g, width)
    ensures var s := DialogSignal(g, width, width);
            forall k :: 0 <= k < |s| ==>
              s[k].x < width &&
              (var rows := ColumnRows(g, width, 127, s[k].x);
               |rows| > 0 && rows[0] as real <= s[k].y <= rows[|rows| - 1] as real)
  {
    var s := DialogSignal(g, width, width);
    var cols := InkColumns(g, width, 127, width);
    DialogSignalPerInkColumn(g, width, width);
    forall k | 0 <= k < |s|
      ensures s[k].x < width
      ensures var rows := ColumnRows(g, width, 127, s[k].x);
              |rows| > 0 && rows[0] as real <= s[k].y <= rows[|rows| - 1] as real
    {
      assert s[k] == DialogTrace(g, width, cols[k]);
      MeanBounds(ColumnRows(g, width, 127, cols[k]));
    }
  }

  /** After `remove_background`, with a grey conversion that maps black to 0
      and white to 255, a pixel is foreground for `digitalize_lead` exactly
      when its HSV triple was in the ink range. */
  lemma ForegroundAfterRemoval(img: seq<seq<Background.Bgr>>, hsv: seq<seq<Background.Hsv>>,
                               toGrey: Background.Bgr -> int, i: nat, j: nat)
    requires Background.SameShape(img, hsv) && i < |img| && j < |img[i]|
    requires toGrey(Background.Black) == 0 && toGrey(Background.White) == 255
    ensures toGrey(Background.RemoveBackground(img, hsv)[i][j]) <= 1 <==> Background.IsInk(hsv[i][j])
  {
  }
}
