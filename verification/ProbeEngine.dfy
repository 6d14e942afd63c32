/** The probing engine of one runner. The socket is an input: each probe comes with the datagrams
    that arrive before its deadline, each with the local clock read when it is handled. */
module ProbeEngine {
  import opened Options
  import opened Integers
  import opened Timestamps
  import opened ClockSync

  /** The messages this protocol cares about; timestamps travel as text. */
  datatype Message =
    | ProbeRequest(from: string, to: string, id: nat, t1: string)
    | ProbeResponse(from: string, to: string, id: nat, t1: string, t2: string, t3: string)
    | OtherMessage

  /** `message` is `None` when the datagram does not parse; `clock` when the reading does not fit. */
  datatype Arrival = Arrival(message: Option<Message>, clock: Option<int>)

  /** The probe being waited for. */
  datatype Probe = Probe(owner: string, peer: string, id: nat, t1: int)

  /** `parse_ns`: the instant, if it fits 64 bits. */
  function ParseNs(s: string): Option<int> {
    match ParseTimestamp(s)
    case Some(n) => if FitsI64(n) then Some(n) else None
    case None => None
  }

  // ----- one datagram -----

  datatype Verdict =
    | Success(sample: Sample)
    | GiveUp
    | Rejected(reason: ProbeResult)
    | Unreadable
    | Nothing

  function Judge(p: Probe, a: Arrival): Verdict
    requires FitsI64(p.t1)
  {
    match a.message
    case None => Unreadable
    case Some(ProbeResponse(from, to, id, t1, t2, t3)) =>
      if to != p.owner || from != p.peer || id != p.id then Rejected(RejectedFilter)
      else if t1 != FormatTs(p.t1) then Rejected(RejectedT1)
      else if a.clock == None then GiveUp
      else if ParseNs(t2) == None || ParseNs(t3) == None then Unreadable
      else Success(Sample(p.t1, ParseNs(t2).value, ParseNs(t3).value, a.clock.value))
    case _ => Nothing
  }

  /** Each verdict, by what the datagram is: a response to this very probe (`Matches`), one to another
      probe of this exchange's parties (`Echoes`), another response, unreadable, or nothing to do. */
  predicate Echoes(p: Probe, a: Arrival) {
    a.message.Some? && a.message.value.ProbeResponse?
    && (a.message.value.to, a.message.value.from, a.message.value.id) == (p.owner, p.peer, p.id)
  }

  lemma JudgeExactly(p: Probe, a: Arrival)
    requires FitsI64(p.t1)
    ensures Judge(p, a) == Rejected(RejectedFilter) <==>
      a.message.Some? && a.message.value.ProbeResponse? && !Echoes(p, a)
    ensures Judge(p, a) == Rejected(RejectedT1) <==> Echoes(p, a) && a.message.value.t1 != FormatTs(p.t1)
    ensures Judge(p, a).GiveUp? <==> Echoes(p, a) && a.message.value.t1 == FormatTs(p.t1) && a.clock.None?
    ensures Judge(p, a).Unreadable? <==>
      a.message.None? ||
      (Echoes(p, a) && a.message.value.t1 == FormatTs(p.t1) && a.clock.Some?
       && !(IsInstant(a.message.value.t2) && IsInstant(a.message.value.t3)))
    ensures forall s :: Judge(p, a) == Success(s) <==>
      Echoes(p, a) && a.message.value.t1 == FormatTs(p.t1) && s.t1 == p.t1 && a.clock == Some(s.t4)
      && ParseTimestamp(a.message.value.t2) == Some(s.t2) && FitsI64(s.t2)
      && ParseTimestamp(a.message.value.t3) == Some(s.t3) && FitsI64(s.t3)
  {
    hide FormatTs, ParseTimestamp;
  }

  predicate IsInstant(s: string) { ParseTimestamp(s).Some? && FitsI64(ParseTimestamp(s).value) }

  predicate Ends(v: Verdict) { v.Success? || v.GiveUp? }

  // ----- what a wait reports, said directly -----

  /** `k` is where the wait over `vs` ends: at the first success or give-up, else at the deadline. */
  predicate EndsAt(vs: seq<Verdict>, k: nat) {
    && k <= |vs|
    && (forall i :: 0 <= i < k ==> !Ends(vs[i]))
    && (k < |vs| ==> Ends(vs[k]))
  }

  /** The most informative failure: the latest rejection, else unreadable input, else a timeout. */
  ghost predicate IsReason(vs: seq<Verdict>, r: ProbeResult) {
    if exists i :: 0 <= i < |vs| && vs[i].Rejected? then
      exists i :: 0 <= i < |vs| && vs[i] == Rejected(r) && forall j :: i < j < |vs| ==> !vs[j].Rejected?
    else if exists i :: 0 <= i < |vs| && vs[i].Unreadable? then r == ParseError
    else r == Timeout
  }

  ghost predicate OutcomeAt(vs: seq<Verdict>, k: nat, sample: Option<Sample>, r: ProbeResult)
    requires k <= |vs|
  {
    if k < |vs| && vs[k].Success? then sample == Some(vs[k].sample) && r == ProbeOk
    else sample == None && IsReason(vs[..k], r)
  }

  /** The whole outcome of a wait. */
  ghost predicate WaitOutcome(vs: seq<Verdict>, sample: Option<Sample>, r: ProbeResult) {
    exists k: nat :: EndsAt(vs, k) && OutcomeAt(vs, k, sample, r)
  }

  lemma EndIsUnique(vs: seq<Verdict>, k: nat, k': nat)
    requires EndsAt(vs, k) && EndsAt(vs, k')
    ensures k == k'
  {
  }

  lemma ReasonIsUnique(vs: seq<Verdict>, r: ProbeResult, r': ProbeResult)
    requires IsReason(vs, r) && IsReason(vs, r')
    ensures r == r'
  {
  }

  /** An outcome is determined by the arrivals. */
  lemma WaitOutcomeIsUnique(vs: seq<Verdict>, s: Option<Sample>, r: ProbeResult, s': Option<Sample>, r': ProbeResult)
    requires WaitOutcome(vs, s, r) && WaitOutcome(vs, s', r')
    ensures s == s' && r == r'
  {
    hide IsReason;
    var k: nat :| EndsAt(vs, k) && OutcomeAt(vs, k, s, r);
    var k': nat :| EndsAt(vs, k') && OutcomeAt(vs, k', s', r');
    EndIsUnique(vs, k, k');
    if IsReason(vs[..k], r) && IsReason(vs[..k], r') {
      ReasonIsUnique(vs[..k], r, r');
    }
  }

  lemma NoReasonYet()
    ensures IsReason([], Timeout)
  {
  }

  // ----- the wait as a fold over arrivals -----

  function UpdatedReason(worst: ProbeResult, v: Verdict): ProbeResult {
    match v
    case Rejected(r) => r
    case Unreadable => if worst == Timeout then ParseError else worst
    case _ => worst
  }

  lemma ReasonStep(vs: seq<Verdict>, worst: ProbeResult, v: Verdict)
    requires IsReason(vs, worst) && !Ends(v)
    requires forall i :: 0 <= i < |vs| && vs[i].Rejected? ==> vs[i].reason.RejectedFilter? || vs[i].reason.RejectedT1?
    ensures IsReason(vs + [v], UpdatedReason(worst, v))
  {
    var ws, r := vs + [v], UpdatedReason(worst, v);
    assert ws[|vs|] == v;
    if v.Rejected? {
      assert ws[|vs|] == Rejected(r);
    } else if i :| 0 <= i < |vs| && vs[i] == Rejected(worst) && forall j :: i < j < |vs| ==> !vs[j].Rejected? {
      assert ws[i] == Rejected(worst);
    } else {
      assert forall i :: 0 <= i < |vs| ==> ws[i] == vs[i];
      if v.Unreadable? {
        assert ws[|vs|].Unreadable?;
      } else if i :| 0 <= i < |vs| && vs[i].Unreadable? {
        assert ws[i].Unreadable?;
      }
    }
  }

  function Verdicts(p: Probe, arrivals: seq<Arrival>): (vs: seq<Verdict>)
    requires FitsI64(p.t1)
    ensures |vs| == |arrivals|
  {
    seq(|arrivals|, i requires 0 <= i < |arrivals| => Judge(p, arrivals[i]))
  }

  /** The requests among `arrivals` that are addressed to `self`, in order of arrival. */
  function Answered(self: string, arrivals: seq<Arrival>): seq<Message> {
    if arrivals == [] then []
    else
      var last := arrivals[|arrivals| - 1].message;
      Answered(self, arrivals[..|arrivals| - 1])
      + if last.Some? && last.value.ProbeRequest? && last.value.to == self then [last.value] else []
  }

  /** `answered` are the messages at `at`, which are, in order and each once, the places where a
      request addressed to `self` arrived. */
  ghost predicate AnswersAt(self: string, arrivals: seq<Arrival>, answered: seq<Message>, at: seq<nat>) {
    && |at| == |answered|
    && (forall i, j :: 0 <= i < j < |at| ==> at[i] < at[j])
    && (forall j :: 0 <= j < |at| ==> at[j] < |arrivals| && arrivals[at[j]].message == Some(answered[j]))
    && (forall i :: 0 <= i < |arrivals| ==> (i in at <==> IsRequestTo(arrivals[i], self)))
  }

  ghost predicate IsRequestTo(a: Arrival, self: string) {
    exists from, id, t1 :: a.message == Some(ProbeRequest(from, self, id, t1))
  }

  /** Every request addressed to the runner is answered, once, in order, and nothing else. */
  lemma {:induction false} AnsweredAreTheRequests(self: string, arrivals: seq<Arrival>) returns (at: seq<nat>)
    ensures AnswersAt(self, arrivals, Answered(self, arrivals), at)
  {
    if arrivals == [] {
      at := [];
    } else {
      var n := |arrivals| - 1;
      var before := AnsweredAreTheRequests(self, arrivals[..n]);
      assert forall i :: 0 <= i < n ==> arrivals[..n][i] == arrivals[i];
      at := before + if IsRequestTo(arrivals[n], self) then [n] else [];
      WhichIsRequest(arrivals[n], self);
      hide IsRequestTo;
      forall i | 0 <= i < |arrivals| ensures i in at <==> IsRequestTo(arrivals[i], self) {
        if i < n { assert arrivals[..n][i] == arrivals[i]; }
      }
    }
  }

  lemma WhichIsRequest(a: Arrival, self: string)
    ensures IsRequestTo(a, self) <==> a.message.Some? && a.message.value.ProbeRequest? && a.message.value.to == self
  {
    if a.message.Some? && a.message.value.ProbeRequest? && a.message.value.to == self {
      var m := a.message.value;
      assert a.message == Some(ProbeRequest(m.from, self, m.id, m.t1));
    }
  }

  lemma AnsweredUntil(self: string, arrivals: seq<Arrival>, vs: seq<Verdict>, k: nat)
    requires |vs| == |arrivals| && EndsAt(vs, k)
    ensures exists at :: AnswersAt(self, arrivals[..k], Answered(self, arrivals[..k]), at)
    ensures forall m :: m in Answered(self, arrivals[..k]) <==>
      m.ProbeRequest? && m.to == self && exists i :: 0 <= i < k && arrivals[i].message == Some(m)
  {
    hide AnswersAt;
    var at := AnsweredAreTheRequests(self, arrivals[..k]);
    forall m ensures m in Answered(self, arrivals[..k]) <==>
      m.ProbeRequest? && m.to == self && exists i :: 0 <= i < k && arrivals[i].message == Some(m)
    {
      AnsweredMembers(self, arrivals[..k], m);
      if i :| 0 <= i < k && arrivals[i].message == Some(m) { assert arrivals[..k][i].message == Some(m); }
    }
  }

  lemma {:induction false} AnsweredMembers(self: string, arrivals: seq<Arrival>, m: Message)
    ensures m in Answered(self, arrivals) <==>
      m.ProbeRequest? && m.to == self && exists i :: 0 <= i < |arrivals| && arrivals[i].message == Some(m)
  {
    if arrivals != [] {
      var n := |arrivals| - 1;
      AnsweredMembers(self, arrivals[..n], m);
      if i :| 0 <= i < n && arrivals[..n][i].message == Some(m) { assert arrivals[i].message == Some(m); }
      if i :| 0 <= i < |arrivals| && arrivals[i].message == Some(m) && i < n {
        assert arrivals[..n][i].message == Some(m);
      }
    }
  }

  // ----- the log of one measurement -----

  /** What happens to one probe: the clock read before it, whether it could be sent, and the
      datagrams that arrive before its deadline. */
  datatype Window = Window(t1: Option<int>, sent: bool, arrivals: seq<Arrival>)

  datatype Attempt = Attempt(probe: Probe, sample: Option<Sample>, result: ProbeResult)

  ghost predicate AttemptOf(p: Probe, w: Window, a: Attempt)
    requires FitsI64(p.t1)
  {
    && a.probe == p
    && (a.sample.Some? <==> a.result == ProbeOk)
    && if w.sent then WaitOutcome(Verdicts(p, w.arrivals), a.sample, a.result)
       else a.sample == None && a.result == Timeout
  }

  /** `log` records one attempt per window whose clock fits, with consecutive ids from `id`. */
  ghost predicate LogOf(self: string, peer: string, id: nat, windows: seq<Window>, log: seq<Attempt>)
    requires forall w :: w in windows && w.t1.Some? ==> FitsI64(w.t1.value)
  {
    if windows == [] then log == []
    else
      var w := windows[|windows| - 1];
      if w.t1.None? then LogOf(self, peer, id, windows[..|windows| - 1], log)
      else
        && log != []
        && LogOf(self, peer, id, windows[..|windows| - 1], log[..|log| - 1])
        && AttemptOf(Probe(self, peer, id + |windows| - 1, w.t1.value), w, log[|log| - 1])
  }

  function RowOf(a: Attempt): RawSample {
    if a.sample.Some? then OkRow(a.sample.value, false) else TimeoutRow(a.probe.t1, a.result)
  }

  function RowsOf(log: seq<Attempt>): (rows: seq<RawSample>)
    ensures |rows| == |log|
    ensures forall i :: 0 <= i < |log| ==> rows[i] == RowOf(log[i])
  {
    seq(|log|, i requires 0 <= i < |log| => RowOf(log[i]))
  }

  function SamplesOf(log: seq<Attempt>): seq<Sample> {
    if log == [] then []
    else
      var last := log[|log| - 1].sample;
      SamplesOf(log[..|log| - 1]) + if last.Some? then [last.value] else []
  }

  lemma RowsAppend(log: seq<Attempt>, a: Attempt)
    ensures RowsOf(log + [a]) == RowsOf(log) + [RowOf(a)]
  {
    hide *;
  }

  lemma SamplesAppend(log: seq<Attempt>, a: Attempt)
    ensures SamplesOf(log + [a]) == SamplesOf(log) + if a.sample.Some? then [a.sample.value] else []
    ensures (log + [a])[..|log|] == log
  {
    assert (log + [a])[..|log|] == log;
  }

  // ----- marking the accepted row -----

  predicate Close(a: real, b: real) { -1.0 < 1_000_000_000.0 * (a - b) < 1.0 }

  predicate IsChosenRow(row: RawSample, chosen: OffsetMeasurement) {
    && row.result == ProbeOk
    && row.rttMs.Some? && Close(row.rttMs.value, chosen.rttMs)
    && row.offsetMs.Some? && Close(row.offsetMs.value, chosen.offsetMs)
  }

  /** The rows with the first one that carries the chosen numbers accepted. */
  function Marked(rows: seq<RawSample>, chosen: OffsetMeasurement): (r: seq<RawSample>)
    ensures |r| == |rows|
  {
    if chosen.outlierRejected || rows == [] then rows
    else if IsChosenRow(rows[0], chosen) then [rows[0].(accepted := true)] + rows[1..]
    else [rows[0]] + Marked(rows[1..], chosen)
  }

  method MarkAccepted(attempts: array<RawSample>, chosen: OffsetMeasurement)
    modifies attempts
    ensures attempts[..] == Marked(old(attempts[..]), chosen)
  {
    if chosen.outlierRejected {
      return;
    }
    hide IsChosenRow;
    ghost var rows := attempts[..];
    for k := 0 to attempts.Length
      invariant attempts[..] == rows
      invariant forall i :: 0 <= i < k ==> !IsChosenRow(rows[i], chosen)
    {
      if IsChosenRow(attempts[k], chosen) {
        attempts[k] := attempts[k].(accepted := true);
        MarkedAt(rows, chosen, k);
        return;
      }
    }
    NoneToMark(rows, chosen);
  }

  lemma {:induction false} MarkedAt(rows: seq<RawSample>, chosen: OffsetMeasurement, j: nat)
    requires j < |rows| && !chosen.outlierRejected && IsChosenRow(rows[j], chosen)
    requires forall i :: 0 <= i < j ==> !IsChosenRow(rows[i], chosen)
    ensures Marked(rows, chosen) == rows[j := rows[j].(accepted := true)]
  {
    hide IsChosenRow;
    if j > 0 {
      MarkedAt(rows[1..], chosen, j - 1);
    }
  }

  lemma {:induction false} NoneToMark(rows: seq<RawSample>, chosen: OffsetMeasurement)
    requires forall i :: 0 <= i < |rows| ==> !IsChosenRow(rows[i], chosen)
    ensures Marked(rows, chosen) == rows
  {
    hide IsChosenRow;
    if rows != [] {
      NoneToMark(rows[1..], chosen);
    }
  }

  // ----- the engine -----

  class ClockSyncEngine {
    const selfName: string
    var nextId: nat

    constructor (name: string)
      ensures selfName == name && nextId == 1
    {
      selfName, nextId := name, 1;
    }

    /** Wait for the response to `p` while answering every request addressed to this runner. */
    method WaitForResponse(p: Probe, arrivals: seq<Arrival>)
      returns (sample: Option<Sample>, result: ProbeResult, answered: seq<Message>)
      requires p.owner == selfName && FitsI64(p.t1)
      ensures WaitOutcome(Verdicts(p, arrivals), sample, result)
      ensures exists k: nat, at :: EndsAt(Verdicts(p, arrivals), k) && AnswersAt(selfName, arrivals[..k], answered, at)
      ensures exists k: nat :: EndsAt(Verdicts(p, arrivals), k) && forall m ::
        m in answered <==>
          m.ProbeRequest? && m.to == selfName && exists i :: 0 <= i < k && arrivals[i].message == Some(m)
      ensures sample.Some? <==> result == ProbeOk
    {
      hide IsReason, FormatTs, ParseNs, AnswersAt;
      ghost var vs := Verdicts(p, arrivals);
      NoReasonYet();
      var worst := Timeout;
      answered := [];
      for k := 0 to |arrivals|
        invariant forall i :: 0 <= i < k ==> !Ends(vs[i])
        invariant forall i :: 0 <= i < k && vs[i].Rejected? ==> vs[i].reason.RejectedFilter? || vs[i].reason.RejectedT1?
        invariant IsReason(vs[..k], worst) && worst != ProbeOk
        invariant answered == Answered(selfName, arrivals[..k])
      {
        assert vs[..k + 1] == vs[..k] + [vs[k]] && vs[..0] == [];
        assert arrivals[..k + 1][..k] == arrivals[..k];
        assert vs[k] == Judge(p, arrivals[k]);
        if !Ends(vs[k]) {
          ReasonStep(vs[..k], worst, vs[k]);
        } else {
          AnsweredUntil(selfName, arrivals, vs, k);
          assert EndsAt(vs, k) && (vs[k].GiveUp? ==> OutcomeAt(vs, k, None, worst));
          assert vs[k].Success? ==> OutcomeAt(vs, k, Some(vs[k].sample), ProbeOk);
        }
        match arrivals[k].message {
          case None =>
            if worst == Timeout {
              worst := ParseError;
            }
          case Some(ProbeResponse(from, to, id, t1, t2, t3)) =>
            if to != selfName || from != p.peer || id != p.id {
              worst := RejectedFilter;
            } else if t1 != FormatTs(p.t1) {
              worst := RejectedT1;
            } else if arrivals[k].clock.None? {
              return None, worst, answered;
            } else {
              var t2Ns, t3Ns := ParseNs(t2), ParseNs(t3);
              if t2Ns.None? || t3Ns.None? {
                if worst == Timeout {
                  worst := ParseError;
                }
              } else {
                return Some(Sample(p.t1, t2Ns.value, t3Ns.value, arrivals[k].clock.value)), ProbeOk, answered;
              }
            }
          case Some(ProbeRequest(from, to, id, t1)) =>
            if to == selfName {
              answered := answered + [ProbeRequest(from, to, id, t1)];
            }
          case Some(OtherMessage) =>
        }
      }
      assert vs[..|vs|] == vs && arrivals[..|arrivals|] == arrivals;
      assert EndsAt(vs, |vs|) && OutcomeAt(vs, |vs|, None, worst);
      AnsweredUntil(selfName, arrivals, vs, |vs|);
      return None, worst, answered;
    }

    /** One probe: an id, and unless the clock does not fit a row, with the sample if there is one. */
    method ProbeOnce(peer: string, w: Window)
      returns (row: Option<RawSample>, sample: Option<Sample>, ghost entry: Option<Attempt>)
      requires w.t1.Some? ==> FitsI64(w.t1.value)
      modifies this`nextId
      ensures nextId == old(nextId) + 1
      ensures w.t1.None? ==> row.None? && sample.None? && entry.None?
      ensures w.t1.Some? ==>
        && entry.Some? && AttemptOf(Probe(selfName, peer, old(nextId), w.t1.value), w, entry.value)
        && row == Some(RowOf(entry.value)) && sample == entry.value.sample
    {
      hide WaitOutcome;
      var id := nextId;
      nextId := nextId + 1;
      if w.t1.None? {
        return None, None, None;
      }
      var t1 := w.t1.value;
      if !w.sent {
        return Some(TimeoutRow(t1, Timeout)), None, Some(Attempt(Probe(selfName, peer, id, t1), None, Timeout));
      }
      var result, answered;
      sample, result, answered := WaitForResponse(Probe(selfName, peer, id, t1), w.arrivals);
      entry := Some(Attempt(Probe(selfName, peer, id, t1), sample, result));
      row := Some(if sample.Some? then OkRow(sample.value, false) else TimeoutRow(t1, result));
    }

    /** Probe `peer` once per window: one id each, one row each unless the clock does not fit. */
    method MeasureOne(peer: string, windows: seq<Window>) returns (m: PeerMeasurement, ghost log: seq<Attempt>)
      requires forall w :: w in windows && w.t1.Some? ==> FitsI64(w.t1.value)
      modifies this`nextId
      ensures nextId == old(nextId) + |windows|
      ensures LogOf(selfName, peer, old(nextId), windows, log)
      ensures m.measurement == BestMeasurement(SamplesOf(log))
      ensures m.attempts == if m.measurement.Some? then Marked(RowsOf(log), m.measurement.value) else RowsOf(log)
    {
      hide BestMeasurement, AttemptOf, RowOf, Marked;
      var samples: seq<Sample>, attempts: seq<RawSample> := [], [];
      log := [];
      for k := 0 to |windows|
        invariant nextId == old(nextId) + k
        invariant LogOf(selfName, peer, old(nextId), windows[..k], log)
        invariant samples == SamplesOf(log) && attempts == RowsOf(log)
      {
        var row, sample;
        ghost var entry;
        row, sample, entry := ProbeOnce(peer, windows[k]);
        assert windows[..k + 1][..k] == windows[..k];
        if row.Some? {
          RowsAppend(log, entry.value);
          SamplesAppend(log, entry.value);
          attempts := attempts + [row.value];
          log := log + [entry.value];
          if sample.Some? {
            samples := samples + [sample.value];
          }
        }
      }
      assert windows[..|windows|] == windows;
      var measurement := PickBest(samples);
      if measurement.Some? {
        var rows := new RawSample[|attempts|](i requires 0 <= i < |attempts| => attempts[i]);
        assert rows[..] == attempts;
        MarkAccepted(rows, measurement.value);
        attempts := rows[..];
      }
      m := PeerMeasurement(measurement, attempts);
    }
  }

  // ----- one row per probe, one accepted row -----

  /** One attempt per probe, in send order, with consecutive ids and the arrivals of its window. */
  lemma {:induction false} OneRowPerProbe(self: string, peer: string, id: nat, windows: seq<Window>, log: seq<Attempt>)
    requires forall k :: 0 <= k < |windows| ==> windows[k].t1.Some? && FitsI64(windows[k].t1.value)
    requires LogOf(self, peer, id, windows, log)
    ensures |log| == |windows|
    ensures forall k :: 0 <= k < |windows| ==>
      AttemptOf(Probe(self, peer, id + k, windows[k].t1.value), windows[k], log[k])
  {
    if windows != [] {
      var n := |windows| - 1;
      assert windows[n].t1.Some?;
      OneRowPerProbe(self, peer, id, windows[..n], log[..|log| - 1]);
      forall k | 0 <= k < n
        ensures AttemptOf(Probe(self, peer, id + k, windows[k].t1.value), windows[k], log[k])
      {
        assert windows[..n][k] == windows[k] && log[..|log| - 1][k] == log[k];
      }
    }
  }

  /** How many samples precede attempt `j`. */
  function Rank(log: seq<Attempt>, j: nat): nat
    requires j <= |log|
  {
    |SamplesOf(log[..j])|
  }

  lemma {:induction false} RankLocatesSample(log: seq<Attempt>, j: nat)
    requires j < |log| && log[j].sample.Some?
    ensures Rank(log, j) < |SamplesOf(log)| && SamplesOf(log)[Rank(log, j)] == log[j].sample.value
  {
    var n := |log| - 1;
    if j == n {
      assert log[..j] == log[..n];
    } else {
      RankLocatesSample(log[..n], j);
      assert log[..n][..j] == log[..j];
    }
  }

  lemma {:induction false} RankGrows(log: seq<Attempt>, i: nat, j: nat)
    requires i < j <= |log|
    ensures Rank(log, i) <= Rank(log, j)
    ensures log[i].sample.Some? ==> Rank(log, i) < Rank(log, j)
    decreases j - i
  {
    assert log[..j][..j - 1] == log[..j - 1] && log[..j][j - 1] == log[j - 1];
    if i < j - 1 {
      RankGrows(log, i, j - 1);
    }
  }

  lemma {:induction false} SampleHasAttempt(log: seq<Attempt>, i: nat) returns (j: nat)
    requires i < |SamplesOf(log)|
    ensures j < |log| && log[j].sample.Some? && Rank(log, j) == i
  {
    var n := |log| - 1;
    if i < |SamplesOf(log[..n])| {
      j := SampleHasAttempt(log[..n], i);
      assert log[..n][..j] == log[..j];
    } else {
      j := n;
      assert log[..j] == log[..n];
    }
  }

  lemma CloseMeansEqual(a: int, b: int)
    ensures Close(Ms(a), Ms(b)) <==> a == b
  {
  }

  /** When a measurement exists and the fallback did not fire, exactly one row is accepted: the
      earliest attempt with the least round-trip time. All other rows stay as they were. */
  lemma {:induction false} ExactlyOneRowIsAccepted(log: seq<Attempt>) returns (j: nat)
    requires forall a :: a in log ==> (a.sample.Some? <==> a.result == ProbeOk)
    requires SamplesOf(log) != [] && !FallbackFires(SamplesOf(log))
    ensures j < |log| && log[j].sample.Some?
    ensures forall i :: 0 <= i < |log| && log[i].sample.Some? ==>
      && log[j].sample.value.RttNs() <= log[i].sample.value.RttNs()
      && (i < j ==> log[j].sample.value.RttNs() < log[i].sample.value.RttNs())
    ensures var rows := Marked(RowsOf(log), BestMeasurement(SamplesOf(log)).value);
      rows == RowsOf(log)[j := RowsOf(log)[j].(accepted := true)]
  {
    hide BestMeasurement, FallbackFires, SamplesOf;
    var samples, rows := SamplesOf(log), RowsOf(log);
    var i0 := DefaultPickIsEarliestMinimum(samples);
    j := SampleHasAttempt(log, i0);
    RankLocatesSample(log, j);
    forall i | 0 <= i < |log| && log[i].sample.Some?
      ensures log[j].sample.value.RttNs() <= log[i].sample.value.RttNs()
      ensures i < j ==> log[j].sample.value.RttNs() < log[i].sample.value.RttNs()
    {
      RankLocatesSample(log, i);
      if i < j { RankGrows(log, i, j); }
    }
    NotRejected(samples);
    var chosen := BestMeasurement(samples).value;
    CloseMeansEqual(log[j].sample.value.RttNs(), samples[i0].RttNs());
    CloseMeansEqual(log[j].sample.value.OffsetNs(), samples[i0].OffsetNs());
    assert log[j] in log && IsChosenRow(rows[j], chosen);
    forall i | 0 <= i < j ensures !IsChosenRow(rows[i], chosen) {
      if log[i].sample.Some? {
        CloseMeansEqual(log[i].sample.value.RttNs(), samples[i0].RttNs());
      }
    }
    MarkedAt(rows, chosen, j);
  }

  lemma NotRejected(samples: seq<Sample>)
    requires samples != [] && !FallbackFires(samples)
    ensures BestMeasurement(samples).Some? && !BestMeasurement(samples).value.outlierRejected
  {
  }

  /** No row is accepted when the fallback fired or nothing was measured. */
  lemma NoRowIsAcceptedOtherwise(log: seq<Attempt>)
    requires SamplesOf(log) == [] || FallbackFires(SamplesOf(log))
    ensures var m := BestMeasurement(SamplesOf(log));
      var rows := if m.Some? then Marked(RowsOf(log), m.value) else RowsOf(log);
      forall i :: 0 <= i < |log| ==> !rows[i].accepted
  {
  }
}
