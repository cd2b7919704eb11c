/**
 * The client's rolling history of people counts: every inbound result
 * replaces the history with `[...prev.slice(-49), {time, count}]`, a
 * first-in-first-out window of at most fifty samples, and the chart shows the
 * times as labels and the counts as its one data series.
 */
module History {
  import Seqs

  /** The window size: `slice(-49)` keeps 49 old samples and the new one makes 50. */
  const Capacity: nat := 50

  /** One point of the chart; the time is the locale-formatted wall-clock text, taken as given. */
  datatype Sample = Sample(time: string, count: int)

  function Min(a: int, b: int): int { if a <= b then a else b }

  function Max(a: int, b: int): int { if a <= b then b else a }

  /** JavaScript's `Array.prototype.slice(start)`: a negative start counts from the end and is clamped at 0. */
  function Slice<T>(s: seq<T>, start: int): (r: seq<T>)
    ensures |r| <= |s| && r == s[|s| - |r|..]
    ensures start < 0 ==> |r| == Min(-start, |s|)
    ensures start >= 0 ==> |r| == |s| - Min(start, |s|)
  {
    var k := if start < 0 then Max(|s| + start, 0) else Min(start, |s|);
    s[k..]
  }

  /** The last `n` elements of `s`, or all of `s` when it is shorter. */
  function Last<T>(n: nat, s: seq<T>): (r: seq<T>)
    ensures |r| == Min(n, |s|)
    ensures r == s[|s| - |r|..]
  {
    s[|s| - Min(n, |s|)..]
  }

  /** A negative slice is the corresponding suffix (`slice(-0)` is `slice(0)`, the whole array). */
  lemma SliceFromEnd<T>(s: seq<T>, n: nat)
    requires n > 0
    ensures Slice(s, -(n as int)) == Last(n, s)
  {
  }

  /** The update `[...prev.slice(-49), sample]` performed on every inbound result. */
  function Append(prev: seq<Sample>, sample: Sample): (r: seq<Sample>)
    ensures |r| == Min(|prev| + 1, Capacity)
    ensures r[|r| - 1] == sample
  {
    Slice(prev, -(Capacity - 1)) + [sample]
  }

  /** The samples in front of the new one are the last min(49, |prev|) old samples, in their order. */
  lemma AppendKeepsNewest(prev: seq<Sample>, sample: Sample)
    ensures var r := Append(prev, sample);
      r[..|r| - 1] == prev[|prev| - Min(Capacity - 1, |prev|)..]
  {
    var r := Append(prev, sample);
    SliceFromEnd(prev, Capacity - 1);
    assert r[..|r| - 1] == Last(Capacity - 1, prev);
  }

  /** Below capacity nothing is evicted. */
  lemma AppendBelowCapacity(prev: seq<Sample>, sample: Sample)
    requires |prev| < Capacity
    ensures Append(prev, sample) == prev + [sample]
  {
    assert Slice(prev, -(Capacity - 1)) == prev;
  }

  /** At capacity exactly the oldest sample is evicted. */
  lemma AppendAtCapacity(prev: seq<Sample>, sample: Sample)
    requires |prev| == Capacity
    ensures Append(prev, sample) == prev[1..] + [sample]
  {
  }

  /** An append is the fifty-sample window over everything received so far. */
  lemma AppendIsWindow(prev: seq<Sample>, sample: Sample)
    ensures Append(prev, sample) == Last(Capacity, prev + [sample])
  {
    var all := prev + [sample];
    var r := Append(prev, sample);
    var w := Last(Capacity, all);
    assert |r| == |w|;
    forall i | 0 <= i < |r| ensures r[i] == w[i] {
      if i < |r| - 1 {
        AppendKeepsNewest(prev, sample);
        assert r[i] == r[..|r| - 1][i];
      }
    }
  }

  /** Taking a window first changes nothing about a later window of the same size. */
  lemma LastOfLast<T>(n: nat, s: seq<T>, t: seq<T>)
    ensures Last(n, Last(n, s) + t) == Last(n, s + t)
  {
    var u, v := Last(n, s) + t, s + t;
    var a, b := Last(n, u), Last(n, v);
    assert |a| == |b|;
    forall i | 0 <= i < |a| ensures a[i] == b[i] {
      assert a[i] == u[|u| - |a| + i];
      assert b[i] == v[|v| - |b| + i];
    }
  }

  /** The history after a run of results, one `Append` per result, oldest first. */
  function Replay(h: seq<Sample>, samples: seq<Sample>): (r: seq<Sample>)
    ensures samples == [] ==> r == h
    ensures samples != [] ==> |r| == Min(|h| + |samples|, Capacity) && r[|r| - 1] == samples[|samples| - 1]
    decreases |samples|
  {
    if samples == [] then h else Replay(Append(h, samples[0]), samples[1..])
  }

  /**
   * FIFO eviction: after any run of appends the history holds exactly the
   * most recent `Capacity` samples of everything seen, in arrival order.
   */
  lemma {:induction false} ReplayIsWindow(h: seq<Sample>, samples: seq<Sample>)
    requires |h| <= Capacity
    ensures Replay(h, samples) == Last(Capacity, h + samples)
    decreases |samples|
  {
    if samples == [] {
      assert h + samples == h;
    } else {
      var h' := Append(h, samples[0]);
      assert Replay(h, samples) == Replay(h', samples[1..]);
      ReplayIsWindow(h', samples[1..]);
      AppendIsWindow(h, samples[0]);
      LastOfLast(Capacity, h + [samples[0]], samples[1..]);
      Seqs.HeadThenRest(h, samples);
    }
  }

  /** Fifty-one results from an empty history: fifty samples remain and the first one is gone. */
  lemma FiftyFirstAppend(samples: seq<Sample>)
    requires |samples| == Capacity + 1
    ensures Replay([], samples) == samples[1..]
    ensures |Replay([], samples)| == Capacity
    ensures samples[0] !in samples[1..] ==> samples[0] !in Replay([], samples)
  {
    var all: seq<Sample> := [] + samples;
    assert all == samples;
    ReplayIsWindow([], samples);
    assert Last(Capacity, all) == samples[1..];
  }

  /** The chart labels: `history.map((h) => h.time)`. */
  function Labels(h: seq<Sample>): (r: seq<string>)
    ensures |r| == |h|
    ensures forall i :: 0 <= i < |h| ==> r[i] == h[i].time
  {
    if h == [] then [] else [h[0].time] + Labels(h[1..])
  }

  /** The chart's data series: `history.map((h) => h.count)`. */
  function Counts(h: seq<Sample>): (r: seq<int>)
    ensures |r| == |h|
    ensures forall i :: 0 <= i < |h| ==> r[i] == h[i].count
  {
    if h == [] then [] else [h[0].count] + Counts(h[1..])
  }

  datatype ChartData = ChartData(labels: seq<string>, data: seq<int>)

  /** The chart's data object: point i is sample i, its time as the label and its count as the value. */
  function Chart(h: seq<Sample>): (c: ChartData)
    ensures |c.labels| == |c.data| == |h|
    ensures forall i :: 0 <= i < |h| ==> c.labels[i] == h[i].time && c.data[i] == h[i].count
  {
    ChartData(Labels(h), Counts(h))
  }

  /** After a result arrives the chart has at most fifty points and ends with that result's time and count. */
  lemma ChartAfterAppend(prev: seq<Sample>, time: string, count: int)
    ensures var c := Chart(Append(prev, Sample(time, count)));
      |c.labels| == |c.data| <= Capacity &&
      c.labels[|c.labels| - 1] == time && c.data[|c.data| - 1] == count
  {
  }
}
