/** One runner's side of clock synchronisation: the NTP formulas of one exchange (section 8 of
    RFC 5905), the choice of a measurement from a cohort, the wait for one response, and the
    bookkeeping of one peer's probes. Milliseconds are exact reals. */
module ClockSync {
  import opened Options
  import opened Integers
  import opened Sorting
  import opened Cohort

  // ----- one exchange -----

  /** 64-bit two's-complement wrap-around of the exact result. */
  function Wrap64(n: int): (r: int)
    ensures FitsI64(r) && (FitsI64(n) ==> r == n)
    ensures (r - n) % 0x1_0000_0000_0000_0000 == 0
  {
    (n + 0x8000_0000_0000_0000) % 0x1_0000_0000_0000_0000 - 0x8000_0000_0000_0000
  }

  /** Division by two that rounds toward zero. */
  function Halved(n: int): int { if n >= 0 then n / 2 else -((-n) / 2) }

  /** Nanoseconds since the epoch; `t1`, `t4` on the initiator's clock, `t2`, `t3` on the peer's. */
  datatype Sample = Sample(t1: int, t2: int, t3: int, t4: int) {
    function RttNs(): (r: int)
      ensures FitsI64(r)
    {
      Wrap64((t4 - t1) - (t3 - t2))
    }

    /** Peer clock minus own clock. */
    function OffsetNs(): int { Halved(Wrap64((t2 - t1) + (t3 - t4))) }
  }

  function Ms(ns: int): real { ns as real / 1_000_000.0 }

  // ----- rows and measurements -----

  datatype ProbeResult = ProbeOk | Timeout | RejectedFilter | RejectedT1 | ParseError

  /** One row of the per-probe log; `None` milliseconds stand for NaN. */
  datatype RawSample = RawSample(
    t1: int, t2: int, t3: int, t4: int,
    offsetMs: Option<real>, rttMs: Option<real>,
    accepted: bool, result: ProbeResult)

  datatype OffsetMeasurement = OffsetMeasurement(
    offsetMs: real, rttMs: real, samples: nat, minRttMs: real, maxRttMs: real,
    rawSamples: seq<RawSample>, outlierRejected: bool)

  datatype PeerMeasurement = PeerMeasurement(measurement: Option<OffsetMeasurement>, attempts: seq<RawSample>)

  function OkRow(s: Sample, accepted: bool): RawSample {
    RawSample(s.t1, s.t2, s.t3, s.t4, Some(Ms(s.OffsetNs())), Some(Ms(s.RttNs())), accepted, ProbeOk)
  }

  function TimeoutRow(t1: int, result: ProbeResult): RawSample {
    RawSample(t1, 0, 0, 0, None, None, false, result)
  }

  // ----- choosing the measurement -----

  /** (rtt, offset) of one sample. */
  type Pair = (int, int)

  function RttKey(p: Pair): real { p.0 as real }

  function Pairs(samples: seq<Sample>): (ps: seq<Pair>)
    ensures |ps| == |samples|
  {
    seq(|samples|, i requires 0 <= i < |samples| => (samples[i].RttNs(), samples[i].OffsetNs()))
  }

  function ByRtt(samples: seq<Sample>): (ps: seq<Pair>)
    ensures |ps| == |samples|
  {
    SameElements(RttKey, Pairs(samples));
    StableSort(RttKey, Pairs(samples))
  }

  function OffsetsMs(ps: seq<Pair>): (xs: seq<real>)
    ensures |xs| == |ps|
  {
    seq(|ps|, i requires 0 <= i < |ps| => Ms(ps[i].1))
  }

  function RttsMs(ps: seq<Pair>): seq<real> {
    seq(|ps|, i requires 0 <= i < |ps| => Ms(ps[i].0))
  }

  function FallbackFires(samples: seq<Sample>): bool
    requires samples != []
  {
    IsOutlier(OffsetsMs(Pairs(samples)), Ms(ByRtt(samples)[0].1))
  }

  /** The measurement chosen from a cohort, as a function of the samples. */
  function BestMeasurement(samples: seq<Sample>): Option<OffsetMeasurement> {
    if samples == [] then None
    else
      var sorted := ByRtt(samples);
      var outlier := FallbackFires(samples);
      var lowest := sorted[..if |sorted| < 3 then |sorted| else 3];
      Some(OffsetMeasurement(
             if outlier then Median(OffsetsMs(lowest)) else Ms(sorted[0].1),
             if outlier then Median(RttsMs(lowest)) else Ms(sorted[0].0),
             |samples|, Ms(sorted[0].0), Ms(sorted[|sorted| - 1].0),
             seq(|samples|, i requires 0 <= i < |samples| =>
               OkRow(samples[i], !outlier && samples[i].RttNs() == sorted[0].0
                 && samples[i].OffsetNs() == sorted[0].1)),
             outlier))
  }

  lemma SortedEnds(samples: seq<Sample>, i: nat)
    requires i < |samples|
    ensures ByRtt(samples)[0].0 <= samples[i].RttNs() <= ByRtt(samples)[|samples| - 1].0
  {
    var ps, sorted := Pairs(samples), ByRtt(samples);
    StableSortSpec(RttKey, ps);
    SameElements(RttKey, ps);
    assert ps[i] in ps;
    var k :| 0 <= k < |sorted| && sorted[k] == ps[i];
    assert k > 0 ==> RttKey(sorted[0]) <= RttKey(sorted[k]);
    assert k < |sorted| - 1 ==> RttKey(sorted[k]) <= RttKey(sorted[|sorted| - 1]);
  }

  lemma SortedPairIsASample(samples: seq<Sample>, k: nat) returns (i: nat)
    requires k < |samples|
    ensures i < |samples| && ByRtt(samples)[k] == (samples[i].RttNs(), samples[i].OffsetNs())
  {
    var ps, sorted := Pairs(samples), ByRtt(samples);
    SameElements(RttKey, ps);
    assert sorted[k] in sorted;
    i :| 0 <= i < |ps| && ps[i] == sorted[k];
  }

  /** `pick_best` as it runs: one pass for the extremes, then a sort by round-trip time. */
  method PickBest(samples: seq<Sample>) returns (m: Option<OffsetMeasurement>)
    ensures m == BestMeasurement(samples)
  {
    hide IsOutlier, Median, StableSort, Wrap64;
    if samples == [] {
      return None;
    }
    var minRtt, maxRtt := 0x7FFF_FFFF_FFFF_FFFF, -0x8000_0000_0000_0000;
    var offsets: seq<real>, byRtt: seq<Pair> := [], [];
    for k := 0 to |samples|
      invariant byRtt == Pairs(samples)[..k] && offsets == OffsetsMs(Pairs(samples))[..k]
      invariant forall j :: 0 <= j < k ==> minRtt <= samples[j].RttNs() <= maxRtt
      invariant k == 0 ==> minRtt == 0x7FFF_FFFF_FFFF_FFFF && maxRtt == -0x8000_0000_0000_0000
      invariant k > 0 ==> exists j :: 0 <= j < k && samples[j].RttNs() == minRtt
      invariant k > 0 ==> exists j :: 0 <= j < k && samples[j].RttNs() == maxRtt
    {
      var r := samples[k].RttNs();
      if r < minRtt {
        minRtt := r;
      }
      if r > maxRtt {
        maxRtt := r;
      }
      offsets := offsets + [Ms(samples[k].OffsetNs())];
      byRtt := byRtt + [(r, samples[k].OffsetNs())];
    }
    assert byRtt == Pairs(samples) && offsets == OffsetsMs(Pairs(samples));
    var sorted := StableSort(RttKey, byRtt);
    assert sorted == ByRtt(samples);
    ExtremesAreEnds(samples, minRtt, maxRtt);
    var (bestRtt, bestOffset) := sorted[0];
    var outlier := IsOutlier(offsets, Ms(bestOffset));
    var chosenOffset, chosenRtt := Ms(bestOffset), Ms(bestRtt);
    if outlier {
      var take := if |sorted| < 3 then |sorted| else 3;
      chosenOffset, chosenRtt := Median(OffsetsMs(sorted[..take])), Median(RttsMs(sorted[..take]));
    }
    var rawSamples := seq(|samples|, i requires 0 <= i < |samples| =>
      OkRow(samples[i], !outlier && samples[i].RttNs() == bestRtt && samples[i].OffsetNs() == bestOffset));
    m := Some(OffsetMeasurement(chosenOffset, chosenRtt, |samples|, Ms(minRtt), Ms(maxRtt), rawSamples, outlier));
  }

  lemma ExtremesAreEnds(samples: seq<Sample>, lo: int, hi: int)
    requires samples != []
    requires forall j :: 0 <= j < |samples| ==> lo <= samples[j].RttNs() <= hi
    requires exists j :: 0 <= j < |samples| && samples[j].RttNs() == lo
    requires exists j :: 0 <= j < |samples| && samples[j].RttNs() == hi
    ensures ByRtt(samples)[0].0 == lo && ByRtt(samples)[|samples| - 1].0 == hi
  {
    var a :| 0 <= a < |samples| && samples[a].RttNs() == lo;
    var b :| 0 <= b < |samples| && samples[b].RttNs() == hi;
    SortedEnds(samples, a);
    SortedEnds(samples, b);
    var i := SortedPairIsASample(samples, 0);
    var j := SortedPairIsASample(samples, |samples| - 1);
  }

  // ----- what a measurement guarantees -----

  /** `offset` (in ns) is within half of `rtt + 1` ns of the true clock difference. */
  predicate WithinHalfRtt(offset: int, rtt: int, skew: int) {
    -(rtt + 1) <= 2 * (offset - skew) <= rtt + 1
  }

  /** Neither result of the exchange overflows 64 bits. */
  predicate ResultsFit(s: Sample) {
    FitsI64((s.t4 - s.t1) - (s.t3 - s.t2)) && FitsI64((s.t2 - s.t1) + (s.t3 - s.t4))
  }

  /** An era: any 146 years. */
  const ERA: nat := 0x4000_0000_0000_0000

  predicate InEra(start: int, t: int) { start <= t < start + ERA && FitsI64(t) }

  /** Readings of one era give results that fit, whichever era it is. */
  lemma EraResultsFit(s: Sample, start: int)
    requires InEra(start, s.t1) && InEra(start, s.t2) && InEra(start, s.t3) && InEra(start, s.t4)
    requires s.t1 <= s.t4 && s.t2 <= s.t3
    ensures ResultsFit(s)
  {
  }

  /** The bound of one exchange. The four events happen in this true-time order and each clock is
      true time plus a constant; rounding of the halved sum is included. */
  lemma ExchangeBound(s: Sample, u1: int, u2: int, u3: int, u4: int, own: int, peer: int)
    requires u1 <= u2 <= u3 <= u4
    requires s == Sample(u1 + own, u2 + peer, u3 + peer, u4 + own)
    requires ResultsFit(s)
    ensures s.RttNs() == (u2 - u1) + (u4 - u3) >= 0
    ensures WithinHalfRtt(s.OffsetNs(), s.RttNs(), peer - own)
  {
  }

  /** Which way the offset points: measured over equal delays it is exactly peer minus own, so adding
      it to the own reading of an instant gives the peer's reading; adding it to the peer's reading
      gives the own one only if the clocks agree anyway. */
  lemma OffsetDirection(u: int, delay: nat, own: int, peer: int)
    requires ResultsFit(Sample(u + own, u + delay + peer, u + delay + peer, u + 2 * delay + own))
    ensures
      var s := Sample(u + own, u + delay + peer, u + delay + peer, u + 2 * delay + own);
      && s.OffsetNs() == peer - own
      && (u + own) + s.OffsetNs() == u + peer
      && ((u + peer) + s.OffsetNs() == u + own <==> own == peer)
  {
  }

  /** Without the fallback the pick is the earliest sample with the least round-trip time, hence
      the one with the smallest guaranteed error of the whole cohort. */
  lemma DefaultPickIsEarliestMinimum(samples: seq<Sample>) returns (i: nat)
    requires samples != [] && !FallbackFires(samples)
    ensures i < |samples|
    ensures var m := BestMeasurement(samples).value;
            m.offsetMs == Ms(samples[i].OffsetNs()) && m.rttMs == Ms(samples[i].RttNs()) == m.minRttMs
    ensures forall j :: 0 <= j < |samples| ==> samples[i].RttNs() <= samples[j].RttNs()
    ensures forall j :: 0 <= j < i ==> samples[i].RttNs() < samples[j].RttNs()
  {
    i := HeadIsEarliestMinimum(RttKey, Pairs(samples));
    forall j | 0 <= j < |samples|
      ensures samples[i].RttNs() <= samples[j].RttNs() && (j < i ==> samples[i].RttNs() < samples[j].RttNs())
    {
      assert RttKey(Pairs(samples)[i]) <= RttKey(Pairs(samples)[j]);
      assert j < i ==> RttKey(Pairs(samples)[i]) < RttKey(Pairs(samples)[j]);
    }
  }

  /** The fallback never fires on fewer than 24 surviving samples. */
  lemma FallbackNeeds24Samples(samples: seq<Sample>)
    requires samples != [] && FallbackFires(samples)
    ensures |samples| >= 24
  {
    var i := SortedPairIsASample(samples, 0);
    var xs := OffsetsMs(Pairs(samples));
    assert xs[i] == Ms(ByRtt(samples)[0].1);
    if |samples| < 24 {
      NeverFiresBelow24(xs, xs[i]);
    }
  }

  /** From 24 samples on it does fire when the min-RTT sample alone disagrees. */
  lemma FallbackFiresOnLoneStray(samples: seq<Sample>, i: nat, common: int)
    requires |samples| >= 24 && i < |samples| && samples[i].OffsetNs() != common
    requires forall j :: 0 <= j < |samples| && j != i ==>
      samples[j].OffsetNs() == common && samples[i].RttNs() < samples[j].RttNs()
    ensures FallbackFires(samples)
    ensures BestMeasurement(samples).value.outlierRejected
  {
    var xs := OffsetsMs(Pairs(samples));
    MsIsInjective(samples[i].OffsetNs(), common);
    FiresFrom24(xs, i, Ms(common));
    var k := SortedPairIsASample(samples, 0);
    SortedEnds(samples, i);
    assert k == i;
  }

  // ----- which rows of the measurement are flagged -----

  /** Sample `i` is the earliest with the least round-trip time. */
  predicate IsEarliestLeast(samples: seq<Sample>, i: nat) {
    && i < |samples|
    && (forall j :: 0 <= j < |samples| ==> samples[i].RttNs() <= samples[j].RttNs())
    && (forall j :: 0 <= j < i ==> samples[i].RttNs() < samples[j].RttNs())
  }

  predicate SameReadings(a: Sample, b: Sample) { a.RttNs() == b.RttNs() && a.OffsetNs() == b.OffsetNs() }

  predicate OnlyAccepted(rows: seq<RawSample>, i: int) {
    0 <= i < |rows| && rows[i].accepted && forall j :: 0 <= j < |rows| && rows[j].accepted ==> j == i
  }

  /** The sort puts the earliest sample of least round trip first. */
  lemma PickIsEarliestLeast(samples: seq<Sample>, i: nat)
    requires IsEarliestLeast(samples, i)
    ensures ByRtt(samples)[0] == (samples[i].RttNs(), samples[i].OffsetNs())
  {
    var k := HeadIsEarliestMinimum(RttKey, Pairs(samples));
    forall j | 0 <= j < |samples| ensures samples[k].RttNs() <= samples[j].RttNs() {
      assert RttKey(Pairs(samples)[k]) <= RttKey(Pairs(samples)[j]);
    }
    forall j | 0 <= j < k ensures samples[k].RttNs() < samples[j].RttNs() {
      assert RttKey(Pairs(samples)[k]) < RttKey(Pairs(samples)[j]);
    }
    assert k == i;
  }

  /** The offsets of a cohort in milliseconds. */
  function CohortOffsets(samples: seq<Sample>): (xs: seq<real>)
    ensures |xs| == |samples|
    ensures forall j :: 0 <= j < |samples| ==> xs[j] == samples[j].OffsetNs() as real / 1_000_000.0
  {
    seq(|samples|, j requires 0 <= j < |samples| => samples[j].OffsetNs() as real / 1_000_000.0)
  }

  lemma SameOffsets(samples: seq<Sample>)
    ensures OffsetsMs(Pairs(samples)) == CohortOffsets(samples)
  {
    hide CohortOffsets;
  }

  /** The fallback fires exactly when the offset of the earliest sample of least round trip is far out
      among all offsets. */
  lemma FallbackFiresExactlyWhen(samples: seq<Sample>, i: nat)
    requires IsEarliestLeast(samples, i)
    ensures FallbackFires(samples) <==> IsFarOut(CohortOffsets(samples), CohortOffsets(samples)[i])
  {
    PickIsEarliestLeast(samples, i);
    SameOffsets(samples);
    OutlierExactlyWhen(CohortOffsets(samples), CohortOffsets(samples)[i]);
    hide IsOutlier, IsFarOut, ByRtt, CohortOffsets, Pairs, OffsetsMs;
  }

  /** What a measurement reports besides the pick: the number of samples, the extremes, and after a
      fallback the medians over the three first samples by round trip, which for the round trip is
      the second one. */
  lemma MeasurementReports(samples: seq<Sample>)
    requires samples != []
    ensures
      var m, ps := BestMeasurement(samples).value, ByRtt(samples);
      && m.samples == |samples| && m.outlierRejected == FallbackFires(samples)
      && (forall j :: 0 <= j < |samples| ==>
            m.minRttMs <= samples[j].RttNs() as real / 1_000_000.0 <= m.maxRttMs)
      && (exists j :: 0 <= j < |samples| && m.minRttMs == samples[j].RttNs() as real / 1_000_000.0)
      && (exists j :: 0 <= j < |samples| && m.maxRttMs == samples[j].RttNs() as real / 1_000_000.0)
      && (FallbackFires(samples) ==>
            && |ps| >= 3 && m.rttMs == ps[1].0 as real / 1_000_000.0
            && m.offsetMs == Median([Ms(ps[0].1), Ms(ps[1].1), Ms(ps[2].1)]))
  {
    hide FallbackFires, Median, StableSort;
    var m, ps := BestMeasurement(samples).value, ByRtt(samples);
    forall j | 0 <= j < |samples| ensures m.minRttMs <= Ms(samples[j].RttNs()) <= m.maxRttMs {
      SortedEnds(samples, j);
      MsIsInjective(ps[0].0, samples[j].RttNs());
      MsIsInjective(samples[j].RttNs(), ps[|ps| - 1].0);
    }
    var first := SortedPairIsASample(samples, 0);
    var last := SortedPairIsASample(samples, |samples| - 1);
    assert m.minRttMs == Ms(samples[first].RttNs()) && m.maxRttMs == Ms(samples[last].RttNs());
    if FallbackFires(samples) {
      FallbackNeeds24Samples(samples);
      assert OffsetsMs(ps[..3]) == [Ms(ps[0].1), Ms(ps[1].1), Ms(ps[2].1)];
      assert RttsMs(ps[..3]) == [Ms(ps[0].0), Ms(ps[1].0), Ms(ps[2].0)];
      StableSortSpec(RttKey, Pairs(samples));
      assert RttKey(ps[0]) <= RttKey(ps[1]) <= RttKey(ps[2]);
      MedianOfSortedThree(Ms(ps[0].0), Ms(ps[1].0), Ms(ps[2].0));
    }
  }

  lemma MedianOfSortedThree(a: real, b: real, c: real)
    requires a <= b <= c
    ensures Median([a, b, c]) == b
  {
    MedianOfThree([a, b, c], 0, 1, a, b);
    MedianOfThree([a, b, c], 1, 2, b, c);
  }

  /** The halved sum rounds toward zero. */
  lemma OffsetRoundsTowardZero(s: Sample)
    requires ResultsFit(s)
    ensures
      var sum := (s.t2 - s.t1) + (s.t3 - s.t4);
      if sum >= 0 then 0 <= sum - 2 * s.OffsetNs() <= 1 else -1 <= sum - 2 * s.OffsetNs() <= 0
  {
  }

  /** The flags inside a measurement: all rows that read like the picked sample, none after a fallback. */
  lemma FlaggedRows(samples: seq<Sample>, i: nat)
    requires IsEarliestLeast(samples, i)
    ensures BestMeasurement(samples).Some?
    ensures
      var rows := BestMeasurement(samples).value.rawSamples;
      |rows| == |samples| && forall j :: 0 <= j < |samples| ==>
        (rows[j].accepted <==> !FallbackFires(samples) && SameReadings(samples[j], samples[i]))
  {
    hide FallbackFires, ByRtt;
    PickIsEarliestLeast(samples, i);
  }

  /** Exactly one row inside a measurement is flagged exactly when the fallback did not fire and no
      other sample has the readings of the picked one. */
  lemma OneRowIsFlaggedExactlyWhen(samples: seq<Sample>, i: nat)
    requires IsEarliestLeast(samples, i)
    ensures
      var rows := BestMeasurement(samples).value.rawSamples;
      (exists k :: OnlyAccepted(rows, k)) <==>
        !FallbackFires(samples)
        && forall j :: 0 <= j < |samples| && j != i ==> !SameReadings(samples[j], samples[i])
  {
    hide BestMeasurement, FallbackFires;
    FlaggedRows(samples, i);
    var rows := BestMeasurement(samples).value.rawSamples;
    if !FallbackFires(samples) {
      assert rows[i].accepted;
      if forall j :: 0 <= j < |samples| && j != i ==> !SameReadings(samples[j], samples[i]) {
        assert OnlyAccepted(rows, i);
      }
    }
  }

  /** It happens that two rows are: equal samples are both flagged. */
  lemma TwinsAreBothFlagged(s: Sample)
    ensures
      var rows := BestMeasurement([s, s]).value.rawSamples;
      rows[0].accepted && rows[1].accepted
  {
    hide BestMeasurement, FallbackFires;
    FlaggedRows([s, s], 0);
    if FallbackFires([s, s]) { FallbackNeeds24Samples([s, s]); }
  }

  lemma MsIsInjective(a: int, b: int)
    ensures Ms(a) == Ms(b) ==> a == b
    ensures a <= b <==> Ms(a) <= Ms(b)
  {
  }

  /** The median of three lies between any two of them. */
  lemma MedianOfThree(xs: seq<real>, i: nat, j: nat, lo: real, hi: real)
    requires |xs| == 3 && i < j < 3
    requires lo <= xs[i] <= hi && lo <= xs[j] <= hi
    ensures lo <= Median(xs) <= hi
  {
    var m := Median(xs);
    HalfOnEachSideOfMedian(xs, true);
    HalfOnEachSideOfMedian(xs, false);
    CountOfThree(xs, m, true);
    CountOfThree(xs, m, false);
  }

  lemma CountOfThree(xs: seq<real>, m: real, below: bool)
    requires |xs| == 3
    ensures CountSide(xs, m, below) ==
      CountSide([xs[0]], m, below) + CountSide([xs[1]], m, below) + CountSide([xs[2]], m, below)
  {
    assert xs == [xs[0]] + ([xs[1]] + [xs[2]]);
    CountSideAppend([xs[0]], [xs[1]] + [xs[2]], m, below);
    CountSideAppend([xs[1]], [xs[2]], m, below);
  }

  /** When the fallback fires, one arbitrarily corrupt sample among the three lowest round trips
      cannot move the reported offset beyond half the third-lowest round trip. */
  lemma FallbackSurvivesOneCorruptSample(samples: seq<Sample>, skew: int, i: nat, j: nat)
    requires samples != [] && FallbackFires(samples)
    requires i < j < 3
    requires |samples| >= 3 ==> var ps := ByRtt(samples);
             WithinHalfRtt(ps[i].1, ps[i].0, skew) && WithinHalfRtt(ps[j].1, ps[j].0, skew)
    ensures |samples| >= 3
    ensures var bound := Ms(ByRtt(samples)[2].0 + 1) / 2.0;
            -bound <= BestMeasurement(samples).value.offsetMs - Ms(skew) <= bound
  {
    var ps, third := ByRtt(samples), ByRtt(samples)[2].0;
    StableSortSpec(RttKey, Pairs(samples));
    var xs := OffsetsMs(ps[..3]);
    var bound := Ms(third + 1) / 2.0;
    assert RttKey(ps[i]) <= RttKey(ps[2]);
    assert j < 2 ==> RttKey(ps[j]) <= RttKey(ps[2]);
    BoundInMs(ps[i].1, ps[i].0, third, skew);
    BoundInMs(ps[j].1, ps[j].0, third, skew);
    MedianOfThree(xs, i, j, Ms(skew) - bound, Ms(skew) + bound);
  }

  lemma BoundInMs(offset: int, rtt: int, cap: int, skew: int)
    requires WithinHalfRtt(offset, rtt, skew) && rtt <= cap
    ensures var bound := Ms(cap + 1) / 2.0;
            Ms(skew) - bound <= Ms(offset) <= Ms(skew) + bound
  {
  }

  /** The reported round-trip time lies between the smallest and the largest one measured. */
  lemma ReportedRttIsBetweenExtremes(samples: seq<Sample>)
    requires samples != []
    ensures var m := BestMeasurement(samples).value;
            m.minRttMs <= m.rttMs <= m.maxRttMs
  {
    var ps := ByRtt(samples);
    StableSortSpec(RttKey, Pairs(samples));
    assert |ps| > 1 ==> RttKey(ps[0]) <= RttKey(ps[|ps| - 1]);
    if FallbackFires(samples) {
      FallbackNeeds24Samples(samples);
      assert RttKey(ps[0]) <= RttKey(ps[1]) <= RttKey(ps[|ps| - 1]);
      MedianOfThree(RttsMs(ps[..3]), 0, 1, Ms(ps[0].0), Ms(ps[|ps| - 1].0));
    }
  }

  /** The error bound of a whole measurement over genuine samples, fallback or not. */
  lemma MeasurementBound(samples: seq<Sample>, skew: int)
    requires samples != []
    requires forall k :: 0 <= k < |samples| ==> WithinHalfRtt(samples[k].OffsetNs(), samples[k].RttNs(), skew)
    ensures FallbackFires(samples) ==> |samples| >= 3
    ensures var worst := if FallbackFires(samples) then ByRtt(samples)[2].0 else ByRtt(samples)[0].0;
            var bound := Ms(worst + 1) / 2.0;
            -bound <= BestMeasurement(samples).value.offsetMs - Ms(skew) <= bound
  {
    if FallbackFires(samples) {
      FallbackNeeds24Samples(samples);
      var a := SortedPairIsASample(samples, 0);
      var b := SortedPairIsASample(samples, 1);
      FallbackSurvivesOneCorruptSample(samples, skew, 0, 1);
    } else {
      var i := SortedPairIsASample(samples, 0);
      BoundInMs(samples[i].OffsetNs(), samples[i].RttNs(), samples[i].RttNs(), skew);
    }
  }
}
