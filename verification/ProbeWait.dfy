/** One runner's wait, as its engine performs it, is a run of the network: the datagrams it handles are
    received one by one, each request addressed to it is answered at once, and the sample the engine
    returns is the one the network records. */
module ProbeWait {
  import opened Options
  import opened Integers
  import opened Timestamps
  import opened ClockSync
  import opened ProbeEngine
  import opened ProbeNetwork

  /** A datagram and the true time at which it is handled. */
  datatype Datagram = Datagram(message: Message, at: int)

  /** The same datagrams as the engine of a runner with this skew sees them. */
  function ArrivalsOf(skew: int, ds: seq<Datagram>): (arrivals: seq<Arrival>)
    ensures |arrivals| == |ds|
  {
    seq(|ds|, i requires 0 <= i < |ds| => Arrival(Some(ds[i].message), Some(ds[i].at + skew)))
  }

  predicate Waiting(w: World, a: string, k: nat, worst: ProbeResult) {
    && w.Runs(a) && w.runners[a].waiting == Some((k, worst)) && w.runners[a].answering == None
    && k < |w.probes| && w.probes[k].probe.owner == a && FitsI64(w.probes[k].probe.t1)
  }

  /** The datagrams are on the network, are handled one after the other, and the era lasts. */
  predicate Arriving(w: World, ds: seq<Datagram>) {
    && (forall i :: 0 <= i < |ds| ==> ds[i].message in w.net)
    && (forall i :: 0 <= i < |ds| ==> w.now <= ds[i].at)
    && (forall i, j :: 0 <= i < j < |ds| ==> ds[i].at <= ds[j].at)
    && (forall i, r :: 0 <= i < |ds| && r in w.skew ==> w.Shows(ds[i].at + w.skew[r]))
  }

  /** Reply `j` is `a`'s, answers request `m`, and is on the network. */
  ghost predicate AnswerSent(w: World, a: string, j: nat, m: Message) {
    && j < |w.replies| && w.replies[j].peer == a && IsRequestOf(w, m, w.replies[j].answers)
    && exists x :: x in w.net && IsResponseOf(w, x, j)
  }

  /** What later worlds keep of earlier ones. */
  predicate Grows(w: World, w': World) {
    && w'.probes == w.probes && w.replies <= w'.replies && w.net <= w'.net && w'.skew == w.skew && w'.era == w.era
    && w'.now >= w.now
  }

  lemma AnswerStaysSent(w: World, w': World, a: string, j: nat, m: Message)
    requires AnswerSent(w, a, j, m) && Grows(w, w')
    ensures AnswerSent(w', a, j, m)
  {
    hide FormatTs;
    var x :| x in w.net && IsResponseOf(w, x, j);
    assert w'.replies[j] == w.replies[j];
    assert IsResponseOf(w', x, j);
  }

  /** The requests of the first `e` datagrams have been answered, in order, each once. */
  ghost predicate AllAnswered(w: World, w': World, a: string, requests: seq<Message>) {
    && |w'.replies| == |w.replies| + |requests|
    && forall j :: 0 <= j < |requests| ==> AnswerSent(w', a, |w.replies| + j, requests[j])
  }

  lemma AllAnsweredThenMore(w: World, w1: World, w2: World, a: string, first: seq<Message>, second: seq<Message>)
    requires AllAnswered(w, w1, a, first) && AllAnswered(w1, w2, a, second) && Grows(w1, w2)
    ensures AllAnswered(w, w2, a, first + second)
  {
    hide AnswerSent, Grows;
    forall j | 0 <= j < |first + second| ensures AnswerSent(w2, a, |w.replies| + j, (first + second)[j]) {
      if j < |first| {
        AnswerStaysSent(w1, w2, a, |w.replies| + j, first[j]);
      } else {
        assert AnswerSent(w2, a, |w1.replies| + (j - |first|), second[j - |first|]);
      }
    }
  }

  // ----- one datagram -----

  function Later(w: World, d: Datagram): World { w.(now := d.at) }

  function Taken(w: World, a: string, m: Message): Option<(Message, int)> {
    if m.ProbeRequest? && m.to == a then Some((m, w.now)) else None
  }

  function Handled(w: World, a: string, k: nat, worst: ProbeResult, v: Verdict, m: Message): World
    requires w.Runs(a)
  {
    w.(runners := w.runners[
         a := w.runners[a].(waiting := Some((k, UpdatedReason(worst, v))), answering := Taken(w, a, m))])
  }

  lemma SuccessIsAStep(w: World, a: string, k: nat, worst: ProbeResult, m: Message, s: Sample)
    requires Waiting(w, a, k, worst) && m in w.net && w.ClocksInEra()
    requires Judge(w.probes[k].probe, Arrival(Some(m), Some(w.Clock(a)))) == Success(s)
    ensures NextWithoutRestart(w, RecordedBy(w, a, k, s))
  {
    hide Judge;
    assert Receive(w, RecordedBy(w, a, k, s), a, m);
  }

  lemma HandlingIsAStep(w: World, a: string, k: nat, worst: ProbeResult, m: Message)
    requires Waiting(w, a, k, worst) && m in w.net && w.ClocksInEra()
    requires !Ends(Judge(w.probes[k].probe, Arrival(Some(m), Some(w.Clock(a)))))
    ensures
      var v := Judge(w.probes[k].probe, Arrival(Some(m), Some(w.Clock(a))));
      NextWithoutRestart(w, Handled(w, a, k, worst, v, m))
  {
    hide Judge, UpdatedReason;
    var v := Judge(w.probes[k].probe, Arrival(Some(m), Some(w.Clock(a))));
    assert Receive(w, Handled(w, a, k, worst, v, m), a, m);
  }

  lemma RequestIsKnown(w: World, m: Message) returns (k: nat)
    requires Inv(w) && m in w.net && m.ProbeRequest?
    ensures IsRequestOf(w, m, k)
  {
    hide IsRequestOf, Genuine, AnsweringInv;
    k :| IsRequestOf(w, m, k);
  }

  lemma AnsweringKeeps(w: World, a: string, k: nat, m: Message)
    requires w.Runs(a) && w.runners[a].answering == Some((m, w.now)) && w.ClocksInEra() && IsRequestOf(w, m, k)
    ensures FitsI64(w.Clock(a)) && m.ProbeRequest?
    ensures
      var w' := Replied(w, a, k, m, w.now);
      NextWithoutRestart(w, w') && Grows(w, w') && AllAnswered(w, w', a, [m]) && w'.recorded == w.recorded
      && w'.now == w.now && w'.runners == w.runners[a := w.runners[a].(answering := None)]
  {
    hide FormatTs;
    assert w.Shows(w.Clock(a));
    var w' := Replied(w, a, k, m, w.now);
    assert Answer(w, w', a, k);
    var x := Response(m, w.now + w.skew[a], w.Clock(a));
    assert x in w'.net && IsResponseOf(w', x, |w.replies|);
    assert IsRequestOf(w', m, k);
  }

  /** A datagram that does not end the wait arrives and is handled; a request is not yet answered. */
  lemma TakeIn(w: World, a: string, k: nat, worst: ProbeResult, d: Datagram, v: Verdict)
    requires Inv(w) && Waiting(w, a, k, worst) && Arriving(w, [d])
    requires v == Judge(w.probes[k].probe, Arrival(Some(d.message), Some(d.at + w.skew[a]))) && !Ends(v)
    ensures
      var w1 := Later(w, d);
      var w2 := Handled(w1, a, k, worst, v, d.message);
      NextWithoutRestart(w, w1) && NextWithoutRestart(w1, w2) && Inv(w2) && w2.ClocksInEra()
  {
    hide Inv, Judge, UpdatedReason, NextWithoutRestart;
    var w1 := Later(w, d);
    assert [d][0] == d;
    LaterIsAStep(w, w1);
    StepKeepsInv(w, w1);
    HandlingIsAStep(w1, a, k, worst, d.message);
    StepKeepsInv(w1, Handled(w1, a, k, worst, v, d.message));
  }

  /** Handling one datagram that does not end the wait. */
  lemma HandleOne(w: World, a: string, k: nat, worst: ProbeResult, d: Datagram) returns (ws: seq<World>)
    requires Inv(w) && Waiting(w, a, k, worst) && Arriving(w, [d])
    requires !Ends(Judge(w.probes[k].probe, Arrival(Some(d.message), Some(d.at + w.skew[a]))))
    ensures Continuation(w, ws)
    ensures
      var w' := ws[|ws| - 1];
      var v := Judge(w.probes[k].probe, Arrival(Some(d.message), Some(d.at + w.skew[a])));
      && Inv(w') && Waiting(w', a, k, UpdatedReason(worst, v)) && Grows(w, w') && w'.now == d.at
      && w'.recorded == w.recorded
      && AllAnswered(w, w', a, Answered(a, ArrivalsOf(w.skew[a], [d])))
  {
    hide Inv, Judge, UpdatedReason, NextWithoutRestart, AnswerSent, IsRequestOf, Replied;
    var m := d.message;
    var v := Judge(w.probes[k].probe, Arrival(Some(m), Some(d.at + w.skew[a])));
    TakeIn(w, a, k, worst, d, v);
    assert [d][0] == d;
    var w1 := Later(w, d);
    var w2 := Handled(w1, a, k, worst, v, m);
    OneAnswered(a, w.skew[a], d);
    if m.ProbeRequest? && m.to == a {
      var i := RequestIsKnown(w2, m);
      AnsweringKeeps(w2, a, i, m);
      var w3 := Replied(w2, a, i, m, w2.now);
      StepKeepsInv(w2, w3);
      ws := [w, w1, w2, w3];
      assert AllAnswered(w, w3, a, [m]);
    } else {
      ws := [w, w1, w2];
      assert AllAnswered(w, w2, a, []);
    }
  }

  lemma StepKeepsInv(w: World, w': World)
    requires Inv(w) && NextWithoutRestart(w, w')
    ensures Inv(w')
  {
    hide Inv, NextWithoutRestart;
    assert Next(w, w');
    NextKeepsInv(w, w');
  }

  lemma OneAnswered(a: string, skew: int, d: Datagram)
    ensures Answered(a, ArrivalsOf(skew, [d])) ==
      if d.message.ProbeRequest? && d.message.to == a then [d.message] else []
  {
    var arrivals := ArrivalsOf(skew, [d]);
    assert arrivals[..0] == [];
    assert arrivals[0].message == Some(d.message);
  }

  // ----- the whole wait -----

  lemma {:induction false} AnsweredAppend(a: string, xs: seq<Arrival>, ys: seq<Arrival>)
    ensures Answered(a, xs + ys) == Answered(a, xs) + Answered(a, ys)
  {
    if ys == [] {
      assert xs + ys == xs;
    } else {
      var n := |ys| - 1;
      AnsweredAppend(a, xs, ys[..n]);
      assert (xs + ys)[..|xs + ys| - 1] == xs + ys[..n];
    }
  }

  ghost predicate Rejections(vs: seq<Verdict>) {
    forall i :: 0 <= i < |vs| && vs[i].Rejected? ==> vs[i].reason.RejectedFilter? || vs[i].reason.RejectedT1?
  }

  /** What the wait leaves: at the end of the datagrams or at the first success `e`. */
  ghost predicate Ended(w: World, w': World, a: string, k: nat, pre: seq<Verdict>, ds: seq<Datagram>, e: nat)
    requires a in w.skew && k < |w.probes| && FitsI64(w.probes[k].probe.t1)
  {
    var arrivals := ArrivalsOf(w.skew[a], ds);
    var vs := Verdicts(w.probes[k].probe, arrivals);
    && EndsAt(vs, e) && Grows(w, w') && AllAnswered(w, w', a, Answered(a, arrivals[..e]))
    && (if e < |vs| then
          && vs[e].Success? && w'.recorded == w.recorded + [Recorded(k, vs[e].sample)]
          && w'.Runs(a) && w'.runners[a].waiting == None && w'.runners[a].answering == None
        else
          w'.recorded == w.recorded && exists r :: Waiting(w', a, k, r) && IsReason(pre + vs, r))
  }

  /** The engine's wait over these datagrams, started after verdicts `pre`, is a run without restarts:
      it answers what the engine answers, records what the engine returns, and is left with the
      reason the engine reports. */
  lemma {:induction false} WaitIsARun(w: World, a: string, k: nat, worst: ProbeResult, pre: seq<Verdict>,
                                      ds: seq<Datagram>)
    returns (ws: seq<World>, e: nat)
    requires Inv(w) && Waiting(w, a, k, worst) && Arriving(w, ds) && IsReason(pre, worst) && Rejections(pre)
    ensures Continuation(w, ws) && Ended(w, ws[|ws| - 1], a, k, pre, ds, e)
    decreases |ds|
  {
    hide Inv, Judge, IsReason, AllAnswered, NextWithoutRestart, UpdatedReason;
    var p, arrivals := w.probes[k].probe, ArrivalsOf(w.skew[a], ds);
    var vs := Verdicts(p, arrivals);
    if ds == [] {
      ws, e := [w], 0;
      NothingAnswered(w, a, arrivals[..0]);
      assert pre + vs == pre;
    } else if Ends(vs[0]) {
      e := 0;
      ws := EndWithSuccess(w, a, k, worst, pre, ds);
    } else {
      var first := HandleOne(w, a, k, worst, ds[0]);
      var w' := first[|first| - 1];
      var v := vs[0];
      JudgedReason(p, arrivals[0]);
      ReasonStep(pre, worst, v);
      assert Arriving(w', ds[1..]);
      var second, e' := WaitIsARun(w', a, k, UpdatedReason(worst, v), pre + [v], ds[1..]);
      Joined(w, first, second);
      ws, e := first + second[1..], e' + 1;
      assert ws[|ws| - 1] == second[|second| - 1];
      ShiftedEnd(w, w', ws[|ws| - 1], a, k, pre, ds, e');
    }
  }

  lemma NothingAnswered(w: World, a: string, none: seq<Arrival>)
    requires none == []
    ensures AllAnswered(w, w, a, Answered(a, none))
  {
  }

  lemma JudgedReason(p: Probe, a: Arrival)
    requires FitsI64(p.t1)
    ensures Judge(p, a).Rejected? ==> Judge(p, a).reason.RejectedFilter? || Judge(p, a).reason.RejectedT1?
  {
    hide FormatTs, ParseNs;
  }

  lemma EndWithSuccess(w: World, a: string, k: nat, worst: ProbeResult, pre: seq<Verdict>,
                       ds: seq<Datagram>)
    returns (ws: seq<World>)
    requires Waiting(w, a, k, worst) && Arriving(w, ds) && ds != []
    requires Ends(Verdicts(w.probes[k].probe, ArrivalsOf(w.skew[a], ds))[0])
    ensures Continuation(w, ws) && Ended(w, ws[|ws| - 1], a, k, pre, ds, 0)
  {
    hide NextWithoutRestart, FormatTs, ParseNs;
    var w1 := Later(w, ds[0]);
    LaterIsAStep(w, w1);
    var v := Verdicts(w.probes[k].probe, ArrivalsOf(w.skew[a], ds))[0];
    assert v == Judge(w.probes[k].probe, Arrival(Some(ds[0].message), Some(w1.Clock(a))));
    SuccessIsAStep(w1, a, k, worst, ds[0].message, v.sample);
    var w2 := RecordedBy(w1, a, k, v.sample);
    ws := [w, w1, w2];
    assert ArrivalsOf(w.skew[a], ds)[..0] == [];
  }

  /** The end of the rest of a wait is the end of the wait. */
  lemma ShiftedEnd(w: World, w1: World, w2: World, a: string, k: nat, pre: seq<Verdict>, ds: seq<Datagram>, e: nat)
    requires a in w.skew && k < |w.probes| && FitsI64(w.probes[k].probe.t1) && ds != [] && e <= |ds| - 1
    requires Grows(w, w1) && w1.recorded == w.recorded
    requires AllAnswered(w, w1, a, Answered(a, ArrivalsOf(w.skew[a], [ds[0]])))
    requires !Ends(Verdicts(w.probes[k].probe, ArrivalsOf(w.skew[a], ds))[0])
    requires Ended(w1, w2, a, k, pre + [Verdicts(w.probes[k].probe, ArrivalsOf(w.skew[a], ds))[0]], ds[1..], e)
    ensures Ended(w, w2, a, k, pre, ds, e + 1)
  {
    hide Judge, IsReason, AllAnswered;
    var p, skew := w.probes[k].probe, w.skew[a];
    var arrivals, rest := ArrivalsOf(skew, ds), ArrivalsOf(skew, ds[1..]);
    assert arrivals == [arrivals[0]] + rest && ArrivalsOf(skew, [ds[0]]) == [arrivals[0]];
    var vs, later := Verdicts(p, arrivals), Verdicts(p, rest);
    assert vs == [vs[0]] + later;
    assert pre + vs == pre + [vs[0]] + later;
    assert arrivals[..e + 1] == [arrivals[0]] + rest[..e];
    AnsweredAppend(a, [arrivals[0]], rest[..e]);
    AllAnsweredThenMore(w, w1, w2, a, Answered(a, [arrivals[0]]), Answered(a, rest[..e]));
    forall i | 0 <= i < e + 1 ensures !Ends(vs[i]) {
      if i > 0 { assert vs[i] == later[i - 1]; }
    }
  }
}
