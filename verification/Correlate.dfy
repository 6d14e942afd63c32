/** Clock correction of cross-runner latencies: which `clock_sync` row a delivery uses, and how far
    the corrected latency can be from the true one. */
module Correlate {
  import opened Options
  import opened ClockSync
  import opened ProbeNetwork

  /** `runner` measured that `peer`'s clock is `offsetMs` ahead of its own. */
  datatype OffsetRow = OffsetRow(runner: string, peer: string, variant: string, ts: int, offsetMs: real)

  datatype Delivery = Delivery(writer: string, receiver: string, writeTs: int, receiveTs: int)

  datatype Corrected = Corrected(latencyMs: real, offsetMs: Option<real>, offsetApplied: bool)

  /** Whole microseconds of a nanosecond count, rounded toward zero. */
  function Micros(ns: int): int { if ns >= 0 then ns / 1000 else -((-ns) / 1000) }

  function RawLatencyMs(d: Delivery): real { Micros(d.receiveTs - d.writeTs) as real / 1000.0 }

  predicate Usable(r: OffsetRow, d: Delivery, variant: string) {
    r.runner == d.receiver && r.peer == d.writer && r.variant == variant && r.ts <= d.receiveTs
  }

  /** Backward as-of join: the latest usable row, the later one in table order among equals. */
  function Asof(rows: seq<OffsetRow>, d: Delivery, variant: string): Option<OffsetRow> {
    if rows == [] then None
    else
      var n := |rows| - 1;
      var best := Asof(rows[..n], d, variant);
      if Usable(rows[n], d, variant) && (best.None? || best.value.ts <= rows[n].ts) then Some(rows[n]) else best
  }

  /** The row of the group's variant if there is one, else the row of the initial sync. */
  function MatchedRow(rows: seq<OffsetRow>, d: Delivery, variant: Option<string>): Option<OffsetRow> {
    var own := if variant.Some? then Asof(rows, d, variant.value) else None;
    if own.Some? then own else Asof(rows, d, "")
  }

  /** `_attach_offsets` for one delivery. */
  function Correct(rows: seq<OffsetRow>, d: Delivery, variant: Option<string>): Corrected {
    var matched := MatchedRow(rows, d, variant);
    var offset :=
      if d.writer == d.receiver then Some(0.0)
      else if matched.Some? then Some(matched.value.offsetMs)
      else None;
    Corrected(if offset.Some? then RawLatencyMs(d) + offset.value else RawLatencyMs(d),
              offset, d.writer == d.receiver || matched.Some?)
  }

  // ----- which row is used -----

  /** The row at `j` was logged by the receiver about the writer, for `variant`, not after the
      receive. */
  predicate IsCandidate(rows: seq<OffsetRow>, d: Delivery, variant: string, j: nat) {
    j < |rows| && (rows[j].runner, rows[j].peer, rows[j].variant) == (d.receiver, d.writer, variant)
    && rows[j].ts <= d.receiveTs
  }

  /** The latest candidate; among equally late ones the last in the table. */
  ghost predicate IsLatest(rows: seq<OffsetRow>, d: Delivery, variant: string, j: nat) {
    IsCandidate(rows, d, variant, j)
    && forall k: nat :: IsCandidate(rows, d, variant, k) ==>
         rows[k].ts < rows[j].ts || (rows[k].ts == rows[j].ts && k <= j)
  }

  ghost predicate HasNone(rows: seq<OffsetRow>, d: Delivery, variant: string) {
    forall k: nat :: !IsCandidate(rows, d, variant, k)
  }

  lemma {:induction false} AsofIsLatest(rows: seq<OffsetRow>, d: Delivery, variant: string)
    ensures match Asof(rows, d, variant)
            case Some(r) => exists j: nat :: IsLatest(rows, d, variant, j) && r == rows[j]
            case None => HasNone(rows, d, variant)
  {
    if rows != [] {
      var n := |rows| - 1;
      AsofIsLatest(rows[..n], d, variant);
      assert forall k: nat :: k < n ==> (IsCandidate(rows, d, variant, k) <==> IsCandidate(rows[..n], d, variant, k));
      var best := Asof(rows[..n], d, variant);
      if Asof(rows, d, variant).Some? {
        if Usable(rows[n], d, variant) && (best.None? || best.value.ts <= rows[n].ts) {
          assert IsLatest(rows, d, variant, n);
        } else {
          var j: nat :| IsLatest(rows[..n], d, variant, j) && best.value == rows[..n][j];
          assert IsLatest(rows, d, variant, j);
        }
      }
    }
  }

  /** The row used is the latest one not after the receive for this variant; only when there is
      none, the latest such row of the initial sync; and none only when neither exists. */
  lemma MatchedRowRule(rows: seq<OffsetRow>, d: Delivery, variant: string)
    ensures match MatchedRow(rows, d, Some(variant))
            case Some(r) =>
              exists j: nat :: IsLatest(rows, d, if HasNone(rows, d, variant) then "" else variant, j) && r == rows[j]
            case None => HasNone(rows, d, variant) && HasNone(rows, d, "")
  {
    AsofIsLatest(rows, d, variant);
    AsofIsLatest(rows, d, "");
    if Asof(rows, d, variant).None? && Asof(rows, d, "").Some? {
      var j: nat :| IsLatest(rows, d, "", j) && Asof(rows, d, "").value == rows[j];
    }
  }

  /** What is reported: on one runner the offset 0; else the offset of the row used, added to the raw
      latency; else the raw latency, flagged as not corrected. */
  lemma CorrectionExactly(rows: seq<OffsetRow>, d: Delivery, variant: string)
    ensures var raw := Micros(d.receiveTs - d.writeTs) as real / 1000.0;
      var c := Correct(rows, d, Some(variant));
      if d.writer == d.receiver then c == Corrected(raw, Some(0.0), true)
      else if HasNone(rows, d, variant) && HasNone(rows, d, "") then c == Corrected(raw, None, false)
      else exists j: nat ::
        IsLatest(rows, d, if HasNone(rows, d, variant) then "" else variant, j)
        && c == Corrected(raw + rows[j].offsetMs, Some(rows[j].offsetMs), true)
    ensures Correct(rows, d, None) == Correct(rows, d, Some(""))
  {
    MatchedRowRule(rows, d, variant);
    if d.writer != d.receiver && MatchedRow(rows, d, Some(variant)).Some? {
      var j: nat :| IsLatest(rows, d, if HasNone(rows, d, variant) then "" else variant, j)
        && MatchedRow(rows, d, Some(variant)).value == rows[j];
      assert Correct(rows, d, Some(variant)).offsetMs == Some(rows[j].offsetMs);
    }
  }

  // ----- how good the corrected latency is -----

  const MICROSECOND_MS := 0.001

  /** Whole microseconds toward zero. */
  lemma MicrosTruncates(ns: int)
    ensures 0 <= ns ==> 0 <= ns - 1000 * Micros(ns) < 1000
    ensures ns <= 0 ==> 0 <= 1000 * Micros(ns) - ns < 1000
  {
  }

  /** Adding a row's offset on the receiver's side cancels the clock difference: the error left is
      the row's own error plus less than one microsecond. */
  lemma OffsetCancelsSkew(raw: int, trueNs: int, skew: int, offsetMs: real, bound: real)
    requires raw == trueNs - skew
    requires -bound <= offsetMs - Ms(skew) <= bound
    ensures -bound - MICROSECOND_MS < Micros(raw) as real / 1000.0 + offsetMs - Ms(trueNs) < bound + MICROSECOND_MS
  {
    MicrosTruncates(raw);
  }

  /** The row was logged by its runner from samples it kept for that peer. */
  ghost predicate Logged(w: World, r: OffsetRow, kept: seq<nat>, samples: seq<Sample>) {
    KeptFor(w, r.runner, r.peer, kept, samples) && r.offsetMs == BestMeasurement(samples).value.offsetMs
  }

  /** END TO END: in every run of the probe protocol, a cross-runner delivery's corrected latency is
      within half the deciding round trip of the row it uses, plus a microsecond, of the true
      one-way latency. */
  lemma CorrectedLatencyIsBounded(ws: seq<World>, i: nat, rows: seq<OffsetRow>, d: Delivery, variant: string,
                                  sentAt: int, receivedAt: int)
    returns (row: OffsetRow, kept: seq<nat>, samples: seq<Sample>)
    requires Run(ws) && i < |ws|
    requires forall r :: r in rows ==> exists kept, samples :: Logged(ws[i], r, kept, samples)
    requires d.writer in ws[i].skew && d.receiver in ws[i].skew && d.writer != d.receiver
    requires d.writeTs == sentAt + ws[i].skew[d.writer] && d.receiveTs == receivedAt + ws[i].skew[d.receiver]
    requires Correct(rows, d, Some(variant)).offsetApplied
    ensures MatchedRow(rows, d, Some(variant)) == Some(row) && Logged(ws[i], row, kept, samples)
    ensures var bound := Ms(DecidingRtt(samples) + 1) / 2.0 + MICROSECOND_MS;
            -bound < Correct(rows, d, Some(variant)).latencyMs - Ms(receivedAt - sentAt) < bound
  {
    hide Run, BestMeasurement, DecidingRtt;
    row := MatchedRow(rows, d, Some(variant)).value;
    MatchedRowRule(rows, d, variant);
    assert row in rows;
    kept, samples :| Logged(ws[i], row, kept, samples);
    EveryMeasurementIsBounded(ws, i, d.receiver, d.writer, kept, samples);
    var skew := ws[i].skew[d.writer] - ws[i].skew[d.receiver];
    OffsetCancelsSkew(d.receiveTs - d.writeTs, receivedAt - sentAt, skew, row.offsetMs,
      Ms(DecidingRtt(samples) + 1) / 2.0);
  }

  /** A delivery that stays on one runner is left at its true latency in whole microseconds. */
  lemma SameRunnerIsExact(rows: seq<OffsetRow>, d: Delivery, variant: Option<string>, skew: int, sentAt: int,
                          receivedAt: int)
    requires d.writer == d.receiver && d.writeTs == sentAt + skew && d.receiveTs == receivedAt + skew
    ensures Correct(rows, d, variant) == Corrected(Micros(receivedAt - sentAt) as real / 1000.0, Some(0.0), true)
  {
  }
}
