/**
 * The per-tick traffic sampler of the GTK monitor (Monitor.update in
 * net_monitor.py) and the maximum its load graph scales to
 * (LoadGraph.__get_max). Each tick takes every interface's new cumulative
 * counters, turns them into byte deltas (ignoring the very first reading,
 * adding 2**32 to a negative delta), adds them to the totals, derives the
 * speed by integer division, reports the history average, and appends the
 * speed to two bounded histories.
 */
module Sampler {
  import opened PyText

  /** HISTOGRAM_SIZE: how many speed samples each history keeps. */
  const HISTOGRAM_SIZE: nat := 50

  /** 2**32: the counter width the overflow check assumes. */
  const COUNTER_WRAP: int := 0x1_0000_0000

  /** What the monitor keeps for one interface between ticks. */
  datatype Sample = Sample(
    dataIn: int, dataOut: int,    // the last raw counter readings
    totalIn: int, totalOut: int,  // bytes accumulated since monitoring started
    histIn: seq<int>, histOut: seq<int>)

  /** The values one tick hands to the interface's widgets. */
  datatype Shown = Shown(
    totalIn: int, totalOut: int,
    speedIn: int, speedOut: int,
    averageIn: int, averageOut: int)

  /** A sample that has never been measured: every counter 0, no history. */
  const Initial := Sample(0, 0, 0, 0, [], [])

  /** The "32bits overflow" check: a negative delta gets 2**32 added. */
  function Unwrap(diff: int): int {
    if diff < 0 then diff + COUNTER_WRAP else diff
  }

  /**
   * The byte deltas of one tick. When both stored counters are 0 (the first
   * measure) the new readings also serve as the old ones.
   */
  function Diffs(s: Sample, newIn: int, newOut: int): (int, int) {
    var (oldIn, oldOut) := if s.dataIn == 0 && s.dataOut == 0 then (newIn, newOut) else (s.dataIn, s.dataOut);
    (Unwrap(newIn - oldIn), Unwrap(newOut - oldOut))
  }

  /** reduce(lambda x, y: x + y, h), folded from the left. */
  function Sum(h: seq<int>): int {
    if h == [] then 0 else Sum(h[..|h| - 1]) + h[|h| - 1]
  }

  /** The reported average: the sum over the fixed HISTOGRAM_SIZE, 0 for no history. */
  function Average(h: seq<int>): int {
    if h == [] then 0 else FloorDiv(Sum(h), HISTOGRAM_SIZE)
  }

  /** append, then `del hist[0]` when the list grew past HISTOGRAM_SIZE. */
  function Push(h: seq<int>, x: int): seq<int> {
    var appended := h + [x];
    if |appended| > HISTOGRAM_SIZE then appended[1..] else appended
  }

  /** One interface's tick: its new stored values and what it shows. */
  function Step(s: Sample, newIn: int, newOut: int, interval: int): (Sample, Shown)
    requires interval != 0
  {
    var (diffIn, diffOut) := Diffs(s, newIn, newOut);
    var totalIn := s.totalIn + diffIn;
    var totalOut := s.totalOut + diffOut;
    var speedIn := FloorDiv(diffIn, interval);
    var speedOut := FloorDiv(diffOut, interval);
    (Sample(newIn, newOut, totalIn, totalOut, Push(s.histIn, speedIn), Push(s.histOut, speedOut)),
     Shown(totalIn, totalOut, speedIn, speedOut, Average(s.histIn), Average(s.histOut)))
  }

  /** The stored state after one tick per reading, in order. */
  function Run(s: Sample, readings: seq<(int, int)>, interval: int): Sample
    requires interval != 0
    decreases |readings|
  {
    if readings == [] then s
    else Run(Step(s, readings[0].0, readings[0].1, interval).0, readings[1..], interval)
  }

  predicate IsCounter(x: int) {
    0 <= x < COUNTER_WRAP
  }

  predicate HistoriesBounded(s: Sample) {
    |s.histIn| <= HISTOGRAM_SIZE && |s.histOut| <= HISTOGRAM_SIZE
  }

  /** The last (at most) HISTOGRAM_SIZE elements of xs. */
  function Window(xs: seq<int>): seq<int> {
    if |xs| <= HISTOGRAM_SIZE then xs else xs[|xs| - HISTOGRAM_SIZE..]
  }

  // ---------------------------------------------------------------------
  // Properties of one tick

  /** The first measure counts nothing: totals stay, both speeds are 0. */
  lemma FirstMeasureIsQuiet(s: Sample, newIn: int, newOut: int, interval: int)
    requires interval != 0 && s.dataIn == 0 && s.dataOut == 0
    ensures Diffs(s, newIn, newOut) == (0, 0)
    ensures var (t, shown) := Step(s, newIn, newOut, interval);
      t.totalIn == s.totalIn && t.totalOut == s.totalOut && shown.speedIn == 0 && shown.speedOut == 0
  {
  }

  /** A counter that wrapped from 4294967290 to 5 moved by 11 bytes. */
  lemma WrapExample()
    ensures Diffs(Sample(4294967290, 7, 0, 0, [], []), 5, 7) == (11, 0)
  {
  }

  /**
   * Between two 32-bit readings the corrected delta is the one distance in
   * [0, 2**32) that carries the old reading onto the new one modulo 2**32.
   */
  lemma UnwrapIsCounterDistance(oldCount: int, newCount: int, d: int)
    requires IsCounter(oldCount) && IsCounter(newCount)
    ensures IsCounter(Unwrap(newCount - oldCount))
    ensures (oldCount + Unwrap(newCount - oldCount)) % COUNTER_WRAP == newCount
    ensures IsCounter(d) && (oldCount + d) % COUNTER_WRAP == newCount ==> d == Unwrap(newCount - oldCount)
  {
    if IsCounter(d) && (oldCount + d) % COUNTER_WRAP == newCount {
      if oldCount + d < COUNTER_WRAP {
        assert (oldCount + d) % COUNTER_WRAP == oldCount + d;
      } else {
        assert (oldCount + d) % COUNTER_WRAP == oldCount + d - COUNTER_WRAP;
      }
    }
  }

  /**
   * The stored counters become the raw readings, not corrected values, and
   * the totals grow by exactly the corrected deltas.
   */
  lemma StepStoresRawReadings(s: Sample, newIn: int, newOut: int, interval: int)
    requires interval != 0
    ensures var t := Step(s, newIn, newOut, interval).0;
      t.dataIn == newIn && t.dataOut == newOut &&
      t.totalIn == s.totalIn + Diffs(s, newIn, newOut).0 &&
      t.totalOut == s.totalOut + Diffs(s, newIn, newOut).1
  {
  }

  /** Speed is the delta floor-divided by the interval. */
  lemma SpeedIsDeltaPerInterval(s: Sample, newIn: int, newOut: int, interval: int)
    requires interval > 0
    ensures var shown := Step(s, newIn, newOut, interval).1;
      var (diffIn, diffOut) := Diffs(s, newIn, newOut);
      interval * shown.speedIn <= diffIn < interval * shown.speedIn + interval &&
      interval * shown.speedOut <= diffOut < interval * shown.speedOut + interval
  {
  }

  /** The average shown is taken from the histories as they were before this tick. */
  lemma AverageBeforeAppend(s: Sample, newIn: int, newOut: int, interval: int)
    requires interval != 0
    ensures var shown := Step(s, newIn, newOut, interval).1;
      shown.averageIn == Average(s.histIn) && shown.averageOut == Average(s.histOut)
  {
  }

  /**
   * A bounded history stays bounded, ends with the new sample, and on
   * overflow loses exactly its oldest element, the rest in order.
   */
  lemma PushSlides(h: seq<int>, x: int)
    requires |h| <= HISTOGRAM_SIZE
    ensures var p := Push(h, x);
      |p| <= HISTOGRAM_SIZE && p[|p| - 1] == x &&
      (if |h| == HISTOGRAM_SIZE then p == h[1..] + [x] else p == h + [x])
  {
    if |h| == HISTOGRAM_SIZE {
      assert (h + [x])[1..] == h[1..] + [x];
    }
  }

  // ---------------------------------------------------------------------
  // Properties over many ticks

  /** Pushing keeps the last HISTOGRAM_SIZE samples of everything pushed. */
  lemma {:induction false} PushWindow(h: seq<int>, x: int)
    requires |h| <= HISTOGRAM_SIZE
    ensures Push(Window(h), x) == Window(h + [x])
  {
    assert Window(h) == h;
    if |h| == HISTOGRAM_SIZE {
      assert (h + [x])[1..] == (h + [x])[|h + [x]| - HISTOGRAM_SIZE..];
    }
  }

  /** The speeds a run of ticks reports, inbound and outbound. */
  function Speeds(s: Sample, readings: seq<(int, int)>, interval: int): (seq<int>, seq<int>)
    requires interval != 0
    decreases |readings|
  {
    if readings == [] then ([], [])
    else
      var (next, shown) := Step(s, readings[0].0, readings[0].1, interval);
      var (restIn, restOut) := Speeds(next, readings[1..], interval);
      ([shown.speedIn] + restIn, [shown.speedOut] + restOut)
  }

  /**
   * After any run of ticks each history holds exactly the last
   * HISTOGRAM_SIZE speeds (its old contents followed by the new ones).
   */
  lemma {:induction false} HistoryIsRecentSpeeds(s: Sample, readings: seq<(int, int)>, interval: int)
    requires interval != 0 && HistoriesBounded(s)
    ensures var (speedsIn, speedsOut) := Speeds(s, readings, interval);
      var t := Run(s, readings, interval);
      t.histIn == Window(s.histIn + speedsIn) && t.histOut == Window(s.histOut + speedsOut)
    decreases |readings|
  {
    if readings != [] {
      var (next, shown) := Step(s, readings[0].0, readings[0].1, interval);
      PushSlides(s.histIn, shown.speedIn);
      PushSlides(s.histOut, shown.speedOut);
      HistoryIsRecentSpeeds(next, readings[1..], interval);
      var (restIn, restOut) := Speeds(next, readings[1..], interval);
      WindowOfPush(s.histIn, shown.speedIn, restIn);
      WindowOfPush(s.histOut, shown.speedOut, restOut);
    }
  }

  lemma WindowOfPush(h: seq<int>, x: int, rest: seq<int>)
    requires |h| <= HISTOGRAM_SIZE
    ensures Window(Push(h, x) + rest) == Window(h + ([x] + rest))
  {
    var p := Push(h, x);
    assert h + ([x] + rest) == (h + [x]) + rest;
    if |h| == HISTOGRAM_SIZE {
      assert h + [x] == [h[0]] + p;
      assert (h + [x]) + rest == [h[0]] + (p + rest);
    }
  }

  /**
   * Totals never decrease over any run of 32-bit readings: every corrected
   * delta lies in [0, 2**32). The stored counters stay 32-bit readings.
   */
  lemma {:induction false} TotalsNeverDecrease(s: Sample, readings: seq<(int, int)>, interval: int)
    requires interval != 0
    requires IsCounter(s.dataIn) && IsCounter(s.dataOut)
    requires forall k :: 0 <= k < |readings| ==> IsCounter(readings[k].0) && IsCounter(readings[k].1)
    ensures var t := Run(s, readings, interval);
      t.totalIn >= s.totalIn && t.totalOut >= s.totalOut && IsCounter(t.dataIn) && IsCounter(t.dataOut)
    decreases |readings|
  {
    if readings != [] {
      var next := Step(s, readings[0].0, readings[0].1, interval).0;
      UnwrapIsCounterDistance(s.dataIn, readings[0].0, 0);
      UnwrapIsCounterDistance(s.dataOut, readings[0].1, 0);
      TotalsNeverDecrease(next, readings[1..], interval);
    }
  }

  // ---------------------------------------------------------------------
  // The average

  /**
   * The average is 0 for an empty history and otherwise the history's sum
   * floor-divided by HISTOGRAM_SIZE.
   */
  lemma AverageIsSumOverSize(h: seq<int>)
    ensures h == [] ==> Average(h) == 0
    ensures h != [] ==> HISTOGRAM_SIZE * Average(h) <= Sum(h) < HISTOGRAM_SIZE * Average(h) + HISTOGRAM_SIZE
  {
    if h != [] {
      FloorDivIsFloor(Sum(h), HISTOGRAM_SIZE);
    }
  }

  lemma {:induction false} SumOfCopies(v: int, k: nat)
    ensures Sum(seq(k, _ => v)) == k * v
  {
    if k > 0 {
      assert seq(k, _ => v)[..k - 1] == seq(k - 1, _ => v);
      SumOfCopies(v, k - 1);
    }
  }

  /** k equal samples average to k * v / HISTOGRAM_SIZE, e.g. three of 100 give 6. */
  lemma AverageOfCopies(v: int, k: nat)
    requires k > 0
    ensures Average(seq(k, _ => v)) == FloorDiv(k * v, HISTOGRAM_SIZE)
    ensures k == 3 && v == 100 ==> Average(seq(k, _ => v)) == 6
  {
    SumOfCopies(v, k);
  }

  lemma {:induction false} SumNonNegative(h: seq<int>)
    requires forall k :: 0 <= k < |h| ==> h[k] >= 0
    ensures Sum(h) >= 0
  {
    if h != [] {
      SumNonNegative(h[..|h| - 1]);
    }
  }

  /**
   * While the history is not full the average under-reports: for
   * non-negative speeds it never exceeds the true mean over the samples held.
   */
  lemma AverageUnderReports(h: seq<int>)
    requires 0 < |h| <= HISTOGRAM_SIZE
    requires forall k :: 0 <= k < |h| ==> h[k] >= 0
    ensures 0 <= Average(h) <= FloorDiv(Sum(h), |h|)
    ensures |h| == HISTOGRAM_SIZE ==> Average(h) == FloorDiv(Sum(h), |h|)
  {
    SumNonNegative(h);
    DivByLarger(Sum(h), |h|, HISTOGRAM_SIZE);
  }

  lemma DivByLarger(x: int, n: int, d: int)
    requires x >= 0 && 0 < n <= d
    ensures 0 <= x / d <= x / n
  {
    var a, b := x / d, x / n;
    assert d * a <= x && x < n * b + n;
    ProductSign(d - n, a);
    assert (d - n) * a == d * a - n * a;
    ProductSign(n, a - b - 1);
    assert n * (a - b - 1) == n * a - n * b - n;
  }

  lemma ProductSign(m: int, k: int)
    requires m >= 0
    ensures k >= 0 ==> m * k >= 0
  {
  }

  // ---------------------------------------------------------------------
  // The objects the monitor updates in place

  /** The {"in": [...], "out": [...]} dictionary shared by an interface and its graph. */
  class Histogram {
    var inHist: seq<int>
    var outHist: seq<int>

    constructor ()
      ensures inHist == [] && outHist == []
    {
      inHist, outHist := [], [];
    }
  }

  /** One interface's entry in Monitor.ifaces. */
  class Interface {
    var dataIn: int
    var dataOut: int
    var totalIn: int
    var totalOut: int
    const histogram: Histogram

    ghost function State(): Sample
      reads this, histogram
    {
      Sample(dataIn, dataOut, totalIn, totalOut, histogram.inHist, histogram.outHist)
    }

    ghost predicate Valid()
      reads this, histogram
    {
      HistoriesBounded(State())
    }

    constructor ()
      ensures Valid() && State() == Initial && fresh(histogram)
    {
      dataIn, dataOut, totalIn, totalOut := 0, 0, 0, 0;
      histogram := new Histogram();
    }

    /** The loop body of Monitor.update for this interface. */
    method Tick(newIn: int, newOut: int, interval: int) returns (shown: Shown)
      requires Valid() && interval != 0
      modifies this, histogram
      ensures Valid()
      ensures (State(), shown) == Step(old(State()), newIn, newOut, interval)
    {
      ghost var before := State();
      var oldIn, oldOut := dataIn, dataOut;
      // is it the first measure?
      if oldIn == 0 && oldOut == 0 {
        oldIn, oldOut := newIn, newOut;
      }
      var diffIn, diffOut := newIn - oldIn, newOut - oldOut;
      // checking for 32bits overflow
      if diffIn < 0 {
        diffIn := diffIn + COUNTER_WRAP;
      }
      if diffOut < 0 {
        diffOut := diffOut + COUNTER_WRAP;
      }
      var speedIn, speedOut := FloorDiv(diffIn, interval), FloorDiv(diffOut, interval);
      var histoIn, histoOut := Average(histogram.inHist), Average(histogram.outHist);
      dataIn, dataOut := newIn, newOut;
      totalIn, totalOut := totalIn + diffIn, totalOut + diffOut;
      shown := Shown(totalIn, totalOut, speedIn, speedOut, histoIn, histoOut);
      histogram.inHist := histogram.inHist + [speedIn];
      if |histogram.inHist| > HISTOGRAM_SIZE {
        histogram.inHist := histogram.inHist[1..];
      }
      histogram.outHist := histogram.outHist + [speedOut];
      if |histogram.outHist| > HISTOGRAM_SIZE {
        histogram.outHist := histogram.outHist[1..];
      }
      assert (diffIn, diffOut) == Diffs(before, newIn, newOut);
    }
  }

  /** The sampling part of the GTK Monitor: its interfaces, keyed by name. */
  class Monitor {
    const ifaces: map<string, Interface>

    ghost function Histograms(): set<Histogram> {
      set n | n in ifaces :: ifaces[n].histogram
    }

    /** Each name has its own entry object and its own history object. */
    ghost predicate Distinct() {
      forall n, m :: n in ifaces && m in ifaces && n != m ==>
        ifaces[n] != ifaces[m] && ifaces[n].histogram != ifaces[m].histogram
    }

    ghost predicate Valid()
      reads ifaces.Values, Histograms()
    {
      Distinct() && forall n :: n in ifaces ==> ifaces[n].Valid()
    }

    /** Every interface's stored values. */
    ghost function States(): map<string, Sample>
      reads ifaces.Values, Histograms()
    {
      map n | n in ifaces :: ifaces[n].State()
    }

    /** Every interface readnet() listed starts unmeasured, with empty histories. */
    constructor (names: set<string>)
      ensures Valid() && ifaces.Keys == names
      ensures forall n :: n in ifaces ==> ifaces[n].State() == Initial
    {
      var built: map<string, Interface> := map[];
      var todo := names;
      while todo != {}
        invariant todo <= names && built.Keys == names - todo
        invariant forall n :: n in built ==> built[n].Valid() && built[n].State() == Initial
        invariant forall n, m :: n in built && m in built && n != m ==>
          built[n] != built[m] && built[n].histogram != built[m].histogram
      {
        var n :| n in todo;
        var iface := new Interface();
        built := built[n := iface];
        todo := todo - {n};
      }
      ifaces := built;
    }

    /** One pass of update()'s loop body: only interface n changes. */
    method TickOne(n: string, newIn: int, newOut: int, interval: int) returns (shown: Shown)
      requires Valid() && n in ifaces && interval != 0
      modifies ifaces[n], ifaces[n].histogram
      ensures Valid()
      ensures (ifaces[n].State(), shown) == Step(old(ifaces[n].State()), newIn, newOut, interval)
      ensures forall m :: m in ifaces && m != n ==> ifaces[m].State() == old(ifaces[m].State())
    {
      shown := ifaces[n].Tick(newIn, newOut, interval);
    }

    /**
     * Monitor.update(interval): one tick over every interface. `read` gives
     * what get_traffic returns for an interface during this tick.
     */
    method Update(read: string -> (int, int), interval: int) returns (shown: map<string, Shown>)
      requires Valid() && interval != 0
      modifies ifaces.Values, Histograms()
      ensures Valid() && shown.Keys == ifaces.Keys
      ensures forall n :: n in ifaces ==>
        (ifaces[n].State(), shown[n]) == Step(old(ifaces[n].State()), read(n).0, read(n).1, interval)
    {
      var todo := ifaces.Keys;
      shown := map[];
      while todo != {}
        invariant todo <= ifaces.Keys && shown.Keys == ifaces.Keys - todo
        invariant Valid()
        invariant forall n :: n in ifaces ==>
          if n in todo then ifaces[n].State() == old(ifaces[n].State())
          else (ifaces[n].State(), shown[n]) == Step(old(ifaces[n].State()), read(n).0, read(n).1, interval)
      {
        var n :| n in todo;
        var (newIn, newOut) := read(n);
        assert ifaces[n].histogram in Histograms();
        var s := TickOne(n, newIn, newOut, interval);
        shown := shown[n := s];
        todo := todo - {n};
      }
    }
  }

  // ---------------------------------------------------------------------
  // LoadGraph.__get_max

  /** max(h) for a non-empty list. */
  function Max(h: seq<int>): (m: int)
    requires h != []
    ensures m in h
    ensures forall k :: 0 <= k < |h| ==> h[k] <= m
  {
    if |h| == 1 then h[0]
    else
      var rest := Max(h[1..]);
      if h[0] >= rest then h[0] else rest
  }

  /** maxin / maxout: the history's maximum, 0 for an empty history. */
  function HistMax(h: seq<int>): int {
    if h == [] then 0 else Max(h)
  }

  /** The graph's scale: max(maxin, maxout). */
  function Peak(histIn: seq<int>, histOut: seq<int>): (m: int)
    ensures forall k :: 0 <= k < |histIn| ==> histIn[k] <= m
    ensures forall k :: 0 <= k < |histOut| ==> histOut[k] <= m
    ensures m in histIn || m in histOut || (m == 0 && (histIn == [] || histOut == []))
    ensures histIn == [] || histOut == [] ==> m >= 0
    ensures histIn == [] && histOut == [] ==> m == 0
  {
    var maxIn, maxOut := HistMax(histIn), HistMax(histOut);
    if maxIn >= maxOut then maxIn else maxOut
  }

  /** The part of LoadGraph this model keeps: the shared history and its maximum. */
  class LoadGraph {
    const hist: Histogram
    var maxval: int

    constructor (hist: Histogram)
      ensures this.hist == hist && maxval == Peak(hist.inHist, hist.outHist)
    {
      this.hist := hist;
      maxval := Peak(hist.inHist, hist.outHist);
    }

    /** __get_max: the largest sample of either history, 0 when both are empty. */
    method GetMax()
      modifies this
      ensures maxval == Peak(hist.inHist, hist.outHist)
      ensures forall k :: 0 <= k < |hist.inHist| ==> hist.inHist[k] <= maxval
      ensures forall k :: 0 <= k < |hist.outHist| ==> hist.outHist[k] <= maxval
      ensures hist.inHist == [] || hist.outHist == [] ==> maxval >= 0
      ensures hist.inHist == [] && hist.outHist == [] ==> maxval == 0
    {
      var maxIn := if hist.inHist != [] then Max(hist.inHist) else 0;
      var maxOut := if hist.outHist != [] then Max(hist.outHist) else 0;
      maxval := if maxIn >= maxOut then maxIn else maxOut;
    }
  }
}
