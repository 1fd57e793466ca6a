/**
 The frame-time histogram of switch/src/perf_switch.cpp: a window of frame times counted in bins
 of a quarter millisecond, and the percentiles reported from the bins, against the sorted times.
 */
module FrameHistogram {
  import opened Sequences

  const BIN_NS: nat := 250_000
  const BIN_COUNT: nat := 4000
  const WINDOW_NS: nat := 2_000_000_000

  // ---------- the specification: sort the times, take the nearest rank ----------

  ghost predicate Ordered(t: seq<nat>) { forall i, j | 0 <= i <= j < |t| :: t[i] <= t[j] }

  function Insert(t: seq<nat>, x: nat): (r: seq<nat>)
    ensures |r| == |t| + 1
    decreases |t|
  {
    if t == [] || x <= t[0] then [x] + t else [t[0]] + Insert(t[1..], x)
  }

  function Sort(s: seq<nat>): (r: seq<nat>)
    ensures |r| == |s|
    decreases |s|
  {
    if s == [] then [] else Insert(Sort(s[..|s| - 1]), s[|s| - 1])
  }

  /** The nearest rank of a percentile among `n` samples: n * percent / 100 rounded up. */
  function Rank(n: nat, percent: nat): nat { (n * percent + 99) / 100 }

  /** The bin's upper edge, or nothing at and beyond one second. */
  function Edge(ns: nat): Option<nat> {
    if ns / BIN_NS < BIN_COUNT then Some((ns / BIN_NS + 1) * BIN_NS) else None
  }

  /** What a report should say: the upper edge of the bin of the sample of that rank. */
  function Percentile(s: seq<nat>, percent: nat): Option<nat>
    requires s != [] && 1 <= percent <= 100
  {
    RankInRange(|s|, percent);
    Edge(Sort(s)[Rank(|s|, percent) - 1])
  }

  /** A reported percentile is the edge just above its sample, and none is reported exactly when
      the sample is a second or more. */
  lemma PercentileIsEdgeAbove(s: seq<nat>, percent: nat)
    requires s != [] && 1 <= percent <= 100
    ensures 1 <= Rank(|s|, percent) <= |s|
    ensures var v, p := Sort(s)[Rank(|s|, percent) - 1], Percentile(s, percent);
            && (p == None <==> v >= 1_000_000_000)
            && (p.Some? ==> v < p.value <= v + BIN_NS && p.value % BIN_NS == 0)
  {
    RankInRange(|s|, percent);
    EdgeAbove(Sort(s)[Rank(|s|, percent) - 1]);
    hide Sort, Rank, Edge;
  }

  lemma EdgeAbove(v: nat)
    ensures Edge(v) == None <==> v >= 1_000_000_000
    ensures Edge(v).Some? ==> v < Edge(v).value <= v + BIN_NS && Edge(v).value % BIN_NS == 0
  {
  }

  lemma RankInRange(n: nat, percent: nat)
    requires n > 0 && 1 <= percent <= 100
    ensures 1 <= Rank(n, percent) <= n
    ensures Rank(n, percent) * 100 >= n * percent > (Rank(n, percent) - 1) * 100
  {
    assert n * percent <= n * 100;
    assert n * percent >= 1;
  }

  /** How many samples are below `x`. */
  function CountBelow(s: seq<nat>, x: nat): (c: nat)
    ensures c <= |s|
    decreases |s|
  {
    if s == [] then 0 else CountBelow(s[..|s| - 1], x) + if s[|s| - 1] < x then 1 else 0
  }

  /** How many samples fall into bin `i`. */
  function InBin(s: seq<nat>, i: nat): (c: nat)
    ensures c <= |s|
    decreases |s|
  {
    if s == [] then 0 else InBin(s[..|s| - 1], i) + if s[|s| - 1] / BIN_NS == i then 1 else 0
  }

  // ---------- sorting ----------

  lemma {:induction false} InsertKeepsOrder(t: seq<nat>, x: nat)
    requires Ordered(t)
    ensures Ordered(Insert(t, x))
    ensures forall i | 0 <= i < |Insert(t, x)| :: Insert(t, x)[i] == x || Insert(t, x)[i] in t
    decreases |t|
  {
    if t != [] && x > t[0] {
      InsertKeepsOrder(t[1..], x);
      var r := Insert(t[1..], x);
      forall i | 0 <= i < |r| ensures t[0] <= r[i] {
        assert r[i] == x || r[i] in t[1..];
      }
    }
  }

  lemma {:induction false} SortIsOrdered(s: seq<nat>)
    ensures Ordered(Sort(s))
    decreases |s|
  {
    if s != [] {
      SortIsOrdered(s[..|s| - 1]);
      InsertKeepsOrder(Sort(s[..|s| - 1]), s[|s| - 1]);
    }
  }

  /** Sorting keeps the samples: with the order, this fixes the sorted list. */
  lemma {:induction false} SortIsPermutation(s: seq<nat>)
    ensures multiset(Sort(s)) == multiset(s)
    decreases |s|
  {
    if s != [] {
      SortIsPermutation(s[..|s| - 1]);
      InsertAdds(Sort(s[..|s| - 1]), s[|s| - 1]);
      assert s == s[..|s| - 1] + [s[|s| - 1]];
    }
  }

  lemma {:induction false} InsertAdds(t: seq<nat>, x: nat)
    ensures multiset(Insert(t, x)) == multiset(t) + multiset{x}
    decreases |t|
  {
    if t != [] && x > t[0] {
      InsertAdds(t[1..], x);
      assert t == [t[0]] + t[1..];
    }
  }

  lemma CountBelowConcat(a: seq<nat>, b: seq<nat>, x: nat)
    ensures CountBelow(a + b, x) == CountBelow(a, x) + CountBelow(b, x)
    decreases |b|
  {
    if b == [] {
      assert a + b == a;
    } else {
      assert (a + b)[..|a + b| - 1] == a + b[..|b| - 1];
      CountBelowConcat(a, b[..|b| - 1], x);
    }
  }

  lemma CountBelowOne(v: nat, x: nat)
    ensures CountBelow([v], x) == if v < x then 1 else 0
  {
    assert [v][..0] == [];
  }

  lemma {:induction false} InsertCounts(t: seq<nat>, v: nat, x: nat)
    ensures CountBelow(Insert(t, v), x) == CountBelow(t, x) + if v < x then 1 else 0
    decreases |t|
  {
    CountBelowOne(v, x);
    if t == [] || v <= t[0] {
      CountBelowConcat([v], t, x);
    } else {
      InsertCounts(t[1..], v, x);
      CountBelowConcat([t[0]], Insert(t[1..], v), x);
      CountBelowConcat([t[0]], t[1..], x);
      assert t == [t[0]] + t[1..];
    }
  }

  lemma {:induction false} SortCounts(s: seq<nat>, x: nat)
    ensures CountBelow(Sort(s), x) == CountBelow(s, x)
    decreases |s|
  {
    if s != [] {
      SortCounts(s[..|s| - 1], x);
      InsertCounts(Sort(s[..|s| - 1]), s[|s| - 1], x);
    }
  }

  /** In a sorted list the element of rank k is below x exactly when at least k are. */
  lemma {:induction false} RankAgainstCount(t: seq<nat>, k: nat, x: nat)
    requires Ordered(t) && 1 <= k <= |t|
    ensures t[k - 1] < x <==> CountBelow(t, x) >= k
    decreases |t|
  {
    var front := t[..|t| - 1];
    if t[|t| - 1] < x {
      AllBelow(t, x);
    } else if k < |t| {
      RankAgainstCount(front, k, x);
    } else {
      assert CountBelow(front, x) <= |front|;
    }
  }

  lemma {:induction false} AllBelow(t: seq<nat>, x: nat)
    requires forall i | 0 <= i < |t| :: t[i] < x
    ensures CountBelow(t, x) == |t|
    decreases |t|
  {
    if t != [] {
      AllBelow(t[..|t| - 1], x);
    }
  }

  // ---------- bins ----------

  /** The first `n` bins together hold the samples below the n-th edge. */
  function Cumulative(s: seq<nat>, n: nat): nat
    decreases n
  {
    if n == 0 then 0 else Cumulative(s, n - 1) + InBin(s, n - 1)
  }

  lemma {:induction false} CumulativeCounts(s: seq<nat>, n: nat)
    ensures Cumulative(s, n) == CountBelow(s, n * BIN_NS)
    decreases n
  {
    if n == 0 {
      NoneBelowZero(s);
    } else {
      CumulativeCounts(s, n - 1);
      BinBetween(s, n - 1);
    }
  }

  lemma {:induction false} NoneBelowZero(s: seq<nat>)
    ensures CountBelow(s, 0) == 0
    decreases |s|
  {
    if s != [] {
      NoneBelowZero(s[..|s| - 1]);
    }
  }

  lemma {:induction false} BinBetween(s: seq<nat>, i: nat)
    ensures CountBelow(s, (i + 1) * BIN_NS) == CountBelow(s, i * BIN_NS) + InBin(s, i)
    decreases |s|
  {
    if s != [] {
      BinBetween(s[..|s| - 1], i);
      var v := s[|s| - 1];
      assert v / BIN_NS == i <==> i * BIN_NS <= v < (i + 1) * BIN_NS;
    }
  }

  lemma {:induction false} CumulativeMonotone(s: seq<nat>, m: nat, n: nat)
    requires m <= n
    ensures Cumulative(s, m) <= Cumulative(s, n)
    decreases n
  {
    if m < n {
      CumulativeMonotone(s, m, n - 1);
    }
  }

  /** The bins reach a rank exactly when the sample of that rank lies below their edge. */
  lemma BinsReachRank(s: seq<nat>, k: nat, n: nat)
    requires 1 <= k <= |s|
    ensures Cumulative(s, n) >= k <==> Sort(s)[k - 1] < n * BIN_NS
  {
    CumulativeCounts(s, n);
    SortIsOrdered(s);
    SortCounts(s, n * BIN_NS);
    RankAgainstCount(Sort(s), k, n * BIN_NS);
  }

  /** The first bin whose running sum reaches the rank is the bin of the sample of that rank. */
  lemma RankInBin(s: seq<nat>, k: nat, i: nat)
    requires 1 <= k <= |s| && i < BIN_COUNT && Cumulative(s, i) < k <= Cumulative(s, i + 1)
    ensures Edge(Sort(s)[k - 1]) == Some((i + 1) * BIN_NS)
  {
    BinsReachRank(s, k, i);
    BinsReachRank(s, k, i + 1);
    hide Sort, Cumulative;
    assert Sort(s)[k - 1] / BIN_NS == i;
  }

  lemma RankBeyond(s: seq<nat>, k: nat)
    requires 1 <= k <= |s| && Cumulative(s, BIN_COUNT) < k
    ensures Edge(Sort(s)[k - 1]) == None
  {
    BinsReachRank(s, k, BIN_COUNT);
    hide Sort, Cumulative;
  }

  /** A higher percentile is never reported lower, reading nothing as infinitely high. */
  lemma {:induction false} PercentilesAreMonotone(s: seq<nat>, p: nat, q: nat)
    requires s != [] && 1 <= p <= q <= 100
    ensures Percentile(s, q).Some? ==> Percentile(s, p).Some? && Percentile(s, p).value <= Percentile(s, q).value
  {
    RankInRange(|s|, p);
    RankInRange(|s|, q);
    assert |s| * p <= |s| * q;
    SortIsOrdered(s);
    var a, b := Sort(s)[Rank(|s|, p) - 1], Sort(s)[Rank(|s|, q) - 1];
    assert a <= b;
    assert a / BIN_NS <= b / BIN_NS;
  }

  lemma InBinSnoc(s: seq<nat>, v: nat, i: nat)
    ensures InBin(s + [v], i) == InBin(s, i) + if v / BIN_NS == i then 1 else 0
  {
    assert (s + [v])[..|s|] == s;
  }

  /** The samples beyond the last bin. */
  function Beyond(s: seq<nat>): nat { |s| - CountBelow(s, BIN_COUNT * BIN_NS) }

  function Total(s: seq<nat>): nat
    decreases |s|
  {
    if s == [] then 0 else Total(s[..|s| - 1]) + s[|s| - 1]
  }

  /** A window's length is the sum of its frame times. */
  lemma TotalIsSum(s: seq<nat>, v: nat)
    ensures Total([]) == 0 && Total(s + [v]) == Total(s) + v
  {
    assert (s + [v])[..|s|] == s;
  }

  datatype Report = Report(frames: nat, overflow: nat, p50: Option<nat>, p95: Option<nat>, p99: Option<nat>, worst: nat)

  class Window {
    const bins: array<nat>
    var frames: nat
    var overflow: nat
    var windowNs: nat
    var worstNs: nat
    ghost var samples: seq<nat>

    /** The counters describe the frame times of the window so far. */
    ghost predicate Valid()
      reads this, bins
    {
      && bins.Length == BIN_COUNT
      && frames == |samples|
      && (forall i | 0 <= i < BIN_COUNT :: bins[i] == InBin(samples, i))
      && overflow == Beyond(samples)
      && windowNs == Total(samples) < WINDOW_NS
      && (forall v | v in samples :: v <= worstNs)
      && (if samples == [] then worstNs == 0 else worstNs in samples)
    }

    constructor ()
      ensures Valid() && samples == []
    {
      bins := new nat[BIN_COUNT](_ => 0);
      frames, overflow, windowNs, worstNs, samples := 0, 0, 0, 0, [];
    }

    /** percentile: scan the bins with a running sum until it reaches the rank. */
    method ReadPercentile(percent: nat) returns (edge: Option<nat>)
      requires bins.Length == BIN_COUNT && frames == |samples| > 0 && 1 <= percent <= 100
      requires forall i | 0 <= i < BIN_COUNT :: bins[i] == InBin(samples, i)
      ensures edge == Percentile(samples, percent)
    {
      RankInRange(frames, percent);
      var rank := (frames * percent + 99) / 100;
      assert rank == Rank(frames, percent);
      hide Sort, Edge, InBin, Rank;
      var seen := 0;
      var i := 0;
      while i < bins.Length
        invariant i <= BIN_COUNT && seen == Cumulative(samples, i) < rank
      {
        seen := seen + bins[i];
        if seen >= rank {
          RankInBin(samples, rank, i);
          return Some((i + 1) * BIN_NS);
        }
        i := i + 1;
      }
      RankBeyond(samples, rank);
      edge := None;
    }

    /** One frame time: count it, and when the window is long enough report and start over. */
    method Frame(elapsedNs: nat) returns (report: Option<Report>)
      requires Valid()
      modifies this, bins
      ensures Valid()
      ensures var s := old(samples) + [elapsedNs];
              if Total(old(samples)) + elapsedNs < WINDOW_NS then report == None && samples == s
              else
                && samples == [] && report.Some?
                && report.value.frames == |s| && report.value.overflow == Beyond(s)
                && report.value.p50 == Percentile(s, 50)
                && report.value.p95 == Percentile(s, 95)
                && report.value.p99 == Percentile(s, 99)
                && (forall v | v in s :: v <= report.value.worst) && report.value.worst in s
    {
      Count(elapsedNs);
      if windowNs < WINDOW_NS {
        return None;
      }
      var p50 := ReadPercentile(50);
      var p95 := ReadPercentile(95);
      var p99 := ReadPercentile(99);
      report := Some(Report(frames, overflow, p50, p95, p99, worstNs));
      Clear();
    }

    method Count(elapsedNs: nat)
      requires Valid()
      modifies this, bins
      ensures samples == old(samples) + [elapsedNs]
      ensures frames == |samples| && overflow == Beyond(samples)
      ensures forall i | 0 <= i < BIN_COUNT :: bins[i] == InBin(samples, i)
      ensures windowNs == Total(samples) == Total(old(samples)) + elapsedNs
      ensures forall v | v in samples :: v <= worstNs
      ensures worstNs in samples
    {
      frames := frames + 1;
      windowNs := windowNs + elapsedNs;
      if elapsedNs > worstNs {
        worstNs := elapsedNs;
      }
      var bin := elapsedNs / BIN_NS;
      if bin < bins.Length {
        bins[bin] := bins[bin] + 1;
      } else {
        overflow := overflow + 1;
      }
      samples := samples + [elapsedNs];
      assert samples[..|samples| - 1] == old(samples);
      forall i | 0 <= i < BIN_COUNT ensures bins[i] == InBin(samples, i) {
        InBinSnoc(old(samples), elapsedNs, i);
      }
    }

    method Clear()
      requires bins.Length == BIN_COUNT
      modifies this, bins
      ensures Valid() && samples == []
    {
      forall i | 0 <= i < bins.Length {
        bins[i] := 0;
      }
      frames, overflow, windowNs, worstNs := 0, 0, 0, 0;
      samples := [];
    }
  }

  /** Every frame of the window is in one bin or beyond them all. */
  lemma BinsAndOverflowAreAll(s: seq<nat>)
    ensures Cumulative(s, BIN_COUNT) + Beyond(s) == |s|
  {
    CumulativeCounts(s, BIN_COUNT);
  }
}
