/** Any number of runners probing each other over a lossy network, as interleaved steps.
    A clock shows true time plus a constant. The network keeps every datagram ever sent and may
    deliver any of them to anyone, any number of times, in any order, or never: that covers loss,
    duplication, delay and reordering. A runner may restart and count its ids from 1 again. */
module ProbeNetwork {
  import opened Options
  import opened Integers
  import opened Timestamps
  import opened ClockSync
  import opened ProbeEngine

  /** A probe that was sent, and the true time at which its `t1` was read. */
  datatype SentProbe = SentProbe(probe: Probe, at: int)

  /** An answer: which probe it answers and the true times of its two stamps. */
  datatype Reply = Reply(answers: nat, peer: string, t2At: int, t3At: int)

  /** A sample kept by its initiator, with the probe it was recorded for. */
  datatype Recorded = Recorded(probe: nat, sample: Sample)

  /** `waiting`: the probe in flight (an index into `probes`) and the worst reason so far.
      `answering`: a request being answered and the true time of its `t2`. */
  datatype Runner = Runner(nextId: nat, waiting: Option<(nat, ProbeResult)>, answering: Option<(Message, int)>)

  datatype World = World(
    era: int, now: int, skew: map<string, int>, net: set<Message>, runners: map<string, Runner>,
    probes: seq<SentProbe>, replies: seq<Reply>, recorded: seq<Recorded>)
  {
    function Clock(r: string): int
      requires r in skew
    {
      now + skew[r]
    }

    predicate Shows(t: int) { InEra(era, t) }

    /** Every clock shows a time of the era. */
    predicate ClocksInEra() { forall r :: r in skew ==> Shows(Clock(r)) }

    predicate Runs(r: string) { r in skew && r in runners }
  }

  function Request(p: Probe): Message
    requires FitsI64(p.t1)
  {
    ProbeRequest(p.owner, p.peer, p.id, FormatTs(p.t1))
  }

  /** The answer to request `m`, stamped `t2` and `t3` on the answering runner's clock. */
  function Response(m: Message, t2: int, t3: int): Message
    requires m.ProbeRequest? && FitsI64(t2) && FitsI64(t3)
  {
    ProbeResponse(m.to, m.from, m.id, m.t1, FormatTs(t2), FormatTs(t3))
  }

  // ----- steps -----

  ghost predicate Init(w: World) {
    && w.ClocksInEra() && w.skew.Keys == w.runners.Keys
    && w.net == {} && w.probes == [] && w.replies == [] && w.recorded == []
    && forall r :: r in w.runners ==> w.runners[r] == Runner(1, None, None)
  }

  predicate Advance(w: World, w': World) {
    w'.now >= w.now && w' == w.(now := w'.now)
  }

  predicate SentEarlier(w: World, a: string, peer: string) {
    forall k :: 0 <= k < |w.probes| && w.probes[k].probe.owner == a && w.probes[k].probe.peer == peer ==>
      w.probes[k].at < w.now
  }

  /** Probes of one runner to one peer are sent at distinct times: it sleeps between them. */
  predicate SendProbe(w: World, w': World, a: string, peer: string) {
    && w.Runs(a) && w.runners[a].waiting == None && w.runners[a].answering == None
    && FitsI64(w.Clock(a))
    && SentEarlier(w, a, peer)
    && var p := Probe(a, peer, w.runners[a].nextId, w.Clock(a));
       w' == w.(net := w.net + {Request(p)},
                runners := w.runners[a := Runner(p.id + 1, Some((|w.probes|, Timeout)), None)],
                probes := w.probes + [SentProbe(p, w.now)])
  }

  /** A datagram reaches `a`: the wait judges it, and a request addressed to `a` is taken up. */
  predicate Receive(w: World, w': World, a: string, m: Message) {
    && w.Runs(a) && w.runners[a].answering == None && m in w.net
    && var r := w.runners[a];
       var taken := if m.ProbeRequest? && m.to == a then Some((m, w.now)) else None;
       match r.waiting
       case None => w' == w.(runners := w.runners[a := r.(answering := taken)])
       case Some((k, worst)) =>
         k < |w.probes| && FitsI64(w.probes[k].probe.t1) &&
         match Judge(w.probes[k].probe, Arrival(Some(m), Some(w.Clock(a))))
         case Success(s) =>
           w' == w.(runners := w.runners[a := r.(waiting := None)], recorded := w.recorded + [Recorded(k, s)])
         case GiveUp => w' == w.(runners := w.runners[a := r.(waiting := None)])
         case v =>
           w' == w.(runners := w.runners[a := r.(waiting := Some((k, UpdatedReason(worst, v))), answering := taken)])
  }

  /** The second stamp is taken and the answer to probe `k` sent. */
  predicate Answer(w: World, w': World, b: string, k: nat) {
    && w.Runs(b) && w.runners[b].answering.Some? && k < |w.probes| && FitsI64(w.probes[k].probe.t1)
    && var (m, t2At) := w.runners[b].answering.value;
       && m.ProbeRequest? && FitsI64(t2At + w.skew[b]) && FitsI64(w.Clock(b))
       && Request(w.probes[k].probe) == m
       && w' == w.(net := w.net + {Response(m, t2At + w.skew[b], w.Clock(b))},
                   runners := w.runners[b := w.runners[b].(answering := None)],
                   replies := w.replies + [Reply(k, b, t2At, w.now)])
  }

  predicate Deadline(w: World, w': World, a: string) {
    w.Runs(a) && w' == w.(runners := w.runners[a := w.runners[a].(waiting := None)])
  }

  predicate Restart(w: World, w': World, a: string) {
    w.Runs(a) && w' == w.(runners := w.runners[a := Runner(1, None, None)])
  }

  ghost predicate NextWithoutRestart(w: World, w': World) {
    && w'.ClocksInEra()
    && (|| Advance(w, w')
        || (exists a, peer :: SendProbe(w, w', a, peer))
        || (exists a, m :: Receive(w, w', a, m))
        || (exists b, k: nat :: Answer(w, w', b, k))
        || (exists a :: Deadline(w, w', a)))
  }

  ghost predicate Next(w: World, w': World) {
    NextWithoutRestart(w, w') || (w'.ClocksInEra() && exists a :: Restart(w, w', a))
  }

  /** A run: any finite number of steps from the start. */
  ghost predicate Run(ws: seq<World>) {
    && ws != [] && Init(ws[0])
    && forall i :: 0 <= i < |ws| - 1 ==> Next(ws[i], ws[i + 1])
  }

  // ----- the invariant -----

  predicate ProbeInv(w: World, k: nat)
    requires k < |w.probes|
  {
    var p := w.probes[k];
    && p.probe.owner in w.skew && p.at <= w.now
    && w.Shows(p.probe.t1) && p.probe.t1 == p.at + w.skew[p.probe.owner]
  }

  predicate ReplyInv(w: World, j: nat)
    requires j < |w.replies|
  {
    var r := w.replies[j];
    && r.answers < |w.probes| && w.probes[r.answers].probe.peer == r.peer && r.peer in w.skew
    && w.probes[r.answers].at <= r.t2At <= r.t3At <= w.now
    && w.Shows(r.t2At + w.skew[r.peer]) && w.Shows(r.t3At + w.skew[r.peer])
  }

  ghost predicate IsRequestOf(w: World, m: Message, k: nat) {
    k < |w.probes| && FitsI64(w.probes[k].probe.t1) && m == Request(w.probes[k].probe)
  }

  ghost predicate IsResponseOf(w: World, m: Message, j: nat) {
    j < |w.replies| && var r := w.replies[j];
    && r.answers < |w.probes| && FitsI64(w.probes[r.answers].probe.t1) && r.peer in w.skew
    && FitsI64(r.t2At + w.skew[r.peer]) && FitsI64(r.t3At + w.skew[r.peer])
    && m == Response(Request(w.probes[r.answers].probe), r.t2At + w.skew[r.peer], r.t3At + w.skew[r.peer])
  }

  /** Reply `j` answers probe `k`, and `s` holds its four readings, in true-time order. */
  predicate Exchange(w: World, k: nat, j: nat, t4At: int, s: Sample) {
    && k < |w.probes| && j < |w.replies|
    && var p, r := w.probes[k], w.replies[j];
       && p.probe.owner in w.skew && p.probe.peer in w.skew
       && r.answers == k && r.peer == p.probe.peer
       && p.at <= r.t2At <= r.t3At <= t4At <= w.now
       && s == Sample(p.at + w.skew[p.probe.owner], r.t2At + w.skew[r.peer], r.t3At + w.skew[r.peer],
         t4At + w.skew[p.probe.owner])
       && w.Shows(s.t1) && w.Shows(s.t2) && w.Shows(s.t3) && w.Shows(s.t4)
  }

  /** Sample `s` pairs the probe's own `t1` and `t4` with the stamps its peer made for that very
      probe. */
  ghost predicate Genuine(w: World, k: nat, s: Sample) {
    exists j: nat, t4At: int :: Exchange(w, k, j, t4At, s)
  }

  predicate SamePair(p: Probe, q: Probe) { p.owner == q.owner && p.peer == q.peer }

  ghost predicate Inv(w: World) {
    && w.ClocksInEra()
    && (forall k :: 0 <= k < |w.probes| ==> ProbeInv(w, k))
    && (forall i, k :: 0 <= i < k < |w.probes| && SamePair(w.probes[i].probe, w.probes[k].probe) ==>
          w.probes[i].at < w.probes[k].at)
    && (forall j :: 0 <= j < |w.replies| ==> ReplyInv(w, j))
    && DatagramsInv(w)
    && (forall r :: r in w.runners && w.runners[r].answering.Some? ==>
          AnsweringInv(w, r, w.runners[r].answering.value.0, w.runners[r].answering.value.1))
    && (forall r :: r in w.runners && w.runners[r].waiting.Some? ==>
          w.runners[r].waiting.value.0 < |w.probes| && w.probes[w.runners[r].waiting.value.0].probe.owner == r)
    && (forall i :: 0 <= i < |w.recorded| ==> Genuine(w, w.recorded[i].probe, w.recorded[i].sample))
  }

  /** Every datagram was sent by someone who stands behind it. */
  ghost predicate DatagramsInv(w: World) {
    && (forall m :: m in w.net && m.ProbeRequest? ==> exists k: nat :: IsRequestOf(w, m, k))
    && (forall m :: m in w.net && m.ProbeResponse? ==> exists j: nat :: IsResponseOf(w, m, j))
  }

  ghost predicate AnsweringInv(w: World, r: string, m: Message, t2At: int) {
    && m.ProbeRequest? && m.to == r && r in w.skew && t2At <= w.now && w.Shows(t2At + w.skew[r])
    && exists k: nat :: IsRequestOf(w, m, k) && w.probes[k].at <= t2At
  }

  // ----- the key step: the filter finds exactly the answer to the probe in flight -----

  /** A response that passes the `(from, to, id, t1)` filter answers the probe in flight itself,
      although ids may have been used before: the echoed text pins the instant. */
  lemma AcceptedResponseIsGenuine(w: World, a: string, k: nat, m: Message, s: Sample)
    requires Inv(w) && w.Runs(a) && m in w.net
    requires k < |w.probes| && w.probes[k].probe.owner == a && FitsI64(w.probes[k].probe.t1)
    requires Judge(w.probes[k].probe, Arrival(Some(m), Some(w.Clock(a)))) == Success(s)
    ensures Genuine(w, k, s)
  {
    hide FormatTs, ParseTimestamp;
    var j: nat :| IsResponseOf(w, m, j);
    var r := w.replies[j];
    var i := r.answers;
    assert ReplyInv(w, j) && ProbeInv(w, i) && ProbeInv(w, k);
    FormatIsInjective(w.probes[i].probe.t1, w.probes[k].probe.t1);
    assert w.probes[i].at == w.probes[k].at;
    assert i == k;
    ParseUndoesFormat(r.t2At + w.skew[r.peer]);
    ParseUndoesFormat(r.t3At + w.skew[r.peer]);
    assert w.Shows(w.Clock(a));
    assert Exchange(w, k, j, w.now, s);
  }

  // ----- preservation -----

  /** Later worlds keep the facts about probes, replies and samples of earlier ones. */
  ghost predicate Extends(w: World, w': World) {
    && w'.now >= w.now && w'.skew == w.skew && w'.era == w.era
    && w.probes <= w'.probes && w.replies <= w'.replies
  }

  lemma GenuineIsStable(w: World, w': World, k: nat, s: Sample)
    requires Extends(w, w') && Genuine(w, k, s)
    ensures Genuine(w', k, s)
  {
    var j: nat, t4At: int :| Exchange(w, k, j, t4At, s);
    assert w'.replies[j] == w.replies[j] && w'.probes[k] == w.probes[k];
    assert Exchange(w', k, j, t4At, s);
  }

  lemma StableFacts(w: World, w': World)
    requires Inv(w) && Extends(w, w') && w'.ClocksInEra()
    ensures forall k :: 0 <= k < |w.probes| ==> ProbeInv(w', k)
    ensures forall j :: 0 <= j < |w.replies| ==> ReplyInv(w', j)
    ensures DatagramsInv(w'.(net := w.net))
    ensures forall i :: 0 <= i < |w.recorded| ==> Genuine(w', w.recorded[i].probe, w.recorded[i].sample)
  {
    hide FormatTs;
    forall k | 0 <= k < |w.probes| ensures ProbeInv(w', k) {
      assert ProbeInv(w, k) && w'.probes[k] == w.probes[k];
    }
    forall j | 0 <= j < |w.replies| ensures ReplyInv(w', j) {
      assert ReplyInv(w, j) && w'.replies[j] == w.replies[j];
    }
    DatagramsAreStable(w, w');
    forall i | 0 <= i < |w.recorded| ensures Genuine(w', w.recorded[i].probe, w.recorded[i].sample) {
      GenuineIsStable(w, w', w.recorded[i].probe, w.recorded[i].sample);
    }
  }

  lemma DatagramsAreStable(w: World, w': World)
    requires DatagramsInv(w) && Extends(w, w')
    ensures DatagramsInv(w'.(net := w.net))
  {
    hide FormatTs;
    var v := w'.(net := w.net);
    forall m | m in w.net && m.ProbeRequest? ensures exists k: nat :: IsRequestOf(v, m, k) {
      var k: nat :| IsRequestOf(w, m, k);
      assert w'.probes[k] == w.probes[k];
      assert IsRequestOf(v, m, k);
    }
    forall m | m in w.net && m.ProbeResponse? ensures exists j: nat :: IsResponseOf(v, m, j) {
      var j: nat :| IsResponseOf(w, m, j);
      assert w'.replies[j] == w.replies[j] && w'.probes[w.replies[j].answers] == w.probes[w.replies[j].answers];
      assert IsResponseOf(v, m, j);
    }
  }

  lemma OneMoreDatagram(w: World, w': World, m: Message)
    requires DatagramsInv(w'.(net := w.net)) && w'.net <= w.net + {m}
    requires m.ProbeRequest? ==> exists k: nat :: IsRequestOf(w', m, k)
    requires m.ProbeResponse? ==> exists j: nat :: IsResponseOf(w', m, j)
    ensures DatagramsInv(w')
  {
    hide FormatTs, Request, Response;
    var v := w'.(net := w.net);
    forall x | x in w'.net && x.ProbeRequest? ensures exists k: nat :: IsRequestOf(w', x, k) {
      if x in w.net {
        var k: nat :| IsRequestOf(v, x, k);
        assert IsRequestOf(w', x, k);
      }
    }
    forall x | x in w'.net && x.ProbeResponse? ensures exists j: nat :: IsResponseOf(w', x, j) {
      if x in w.net {
        var j: nat :| IsResponseOf(v, x, j);
        assert IsResponseOf(w', x, j);
      }
    }
  }

  lemma RequestDeterminesProbe(w: World, m: Message, i: nat, k: nat)
    requires Inv(w) && IsRequestOf(w, m, i) && IsRequestOf(w, m, k)
    ensures i == k
  {
    hide FormatTs;
    assert ProbeInv(w, i) && ProbeInv(w, k);
    FormatIsInjective(w.probes[i].probe.t1, w.probes[k].probe.t1);
  }

  lemma AnsweringIsStable(w: World, w': World, r: string, m: Message, t2At: int)
    requires Inv(w) && Extends(w, w') && AnsweringInv(w, r, m, t2At)
    ensures AnsweringInv(w', r, m, t2At)
  {
    hide FormatTs;
    var k: nat :| IsRequestOf(w, m, k) && w.probes[k].at <= t2At;
    assert w'.probes[k] == w.probes[k];
    assert IsRequestOf(w', m, k);
  }

  /** What a runner that was not touched by the step still satisfies. */
  lemma OtherRunners(w: World, w': World, a: string)
    requires Inv(w) && Extends(w, w') && w'.ClocksInEra()
    requires forall r :: r in w'.runners && r != a ==> r in w.runners && w'.runners[r] == w.runners[r]
    ensures forall r :: r in w'.runners && r != a && w'.runners[r].answering.Some? ==>
      AnsweringInv(w', r, w'.runners[r].answering.value.0, w'.runners[r].answering.value.1)
    ensures forall r :: r in w'.runners && r != a && w'.runners[r].waiting.Some? ==>
      w'.runners[r].waiting.value.0 < |w'.probes| && w'.probes[w'.runners[r].waiting.value.0].probe.owner == r
  {
    forall r | r in w'.runners && r != a && w'.runners[r].answering.Some?
      ensures AnsweringInv(w', r, w'.runners[r].answering.value.0, w'.runners[r].answering.value.1)
    {
      AnsweringIsStable(w, w', r, w.runners[r].answering.value.0, w.runners[r].answering.value.1);
    }
    forall r | r in w'.runners && r != a && w'.runners[r].waiting.Some?
      ensures w'.runners[r].waiting.value.0 < |w'.probes| && w'.probes[w'.runners[r].waiting.value.0].probe.owner == r
    {
      var k := w.runners[r].waiting.value.0;
      assert w'.probes[k] == w.probes[k];
    }
  }

  lemma SendProbeKeepsInv(w: World, w': World, a: string, peer: string)
    requires Inv(w) && w'.ClocksInEra() && SendProbe(w, w', a, peer)
    ensures Inv(w')
  {
    hide FormatTs, Genuine, AnsweringInv;
    var n := |w.probes|;
    assert w'.Clock(a) == w.Clock(a) && w'.Shows(w'.Clock(a));
    StableFacts(w, w');
    OtherRunners(w, w', a);
    assert ProbeInv(w', n);
    var request := Request(w'.probes[n].probe);
    assert IsRequestOf(w', request, n);
    OneMoreDatagram(w, w', request);
  }

  lemma TakingUpARequest(w: World, w': World, a: string, m: Message)
    requires Inv(w) && w.Runs(a) && m in w.net && m.ProbeRequest? && m.to == a
    requires Extends(w, w') && w'.now == w.now
    ensures AnsweringInv(w', a, m, w.now)
  {
    hide FormatTs;
    var k: nat :| IsRequestOf(w, m, k);
    assert ProbeInv(w, k) && w'.probes[k] == w.probes[k];
    assert IsRequestOf(w', m, k);
    assert w.Shows(w.Clock(a));
  }

  lemma ReceiveKeepsInv(w: World, w': World, a: string, m: Message)
    requires Inv(w) && w'.ClocksInEra() && Receive(w, w', a, m)
    ensures Inv(w')
  {
    hide FormatTs, Genuine, AnsweringInv, DatagramsInv, Judge;
    StableFacts(w, w');
    OtherRunners(w, w', a);
    if m.ProbeRequest? && m.to == a {
      TakingUpARequest(w, w', a, m);
    }
    if w'.recorded != w.recorded {
      var k := w.runners[a].waiting.value.0;
      var s := w'.recorded[|w.recorded|].sample;
      AcceptedResponseIsGenuine(w, a, k, m, s);
      GenuineIsStable(w, w', k, s);
    }
  }

  lemma AnswerKeepsInv(w: World, w': World, b: string, k: nat)
    requires Inv(w) && w'.ClocksInEra() && Answer(w, w', b, k)
    ensures Inv(w')
  {
    hide FormatTs, Genuine, AnsweringInv, DatagramsInv, IsResponseOf, IsRequestOf;
    StableFacts(w, w');
    OtherRunners(w, w', b);
    AnswerIsGenuine(w, w', b, k);
    var (m, t2At) := w.runners[b].answering.value;
    OneMoreDatagram(w, w', Response(m, t2At + w.skew[b], w.Clock(b)));
  }

  /** The reply that is logged answers the request that was taken up. */
  lemma AnswerIsGenuine(w: World, w': World, b: string, k: nat)
    requires Inv(w) && w'.ClocksInEra() && Answer(w, w', b, k)
    ensures ReplyInv(w', |w.replies|)
    ensures
      var (m, t2At) := w.runners[b].answering.value;
      IsResponseOf(w', Response(m, t2At + w.skew[b], w.Clock(b)), |w.replies|)
  {
    hide FormatTs, Genuine, DatagramsInv;
    var (m, t2At) := w.runners[b].answering.value;
    assert AnsweringInv(w, b, m, t2At);
    var i: nat :| IsRequestOf(w, m, i) && w.probes[i].at <= t2At;
    RequestDeterminesProbe(w, m, i, k);
    assert w.Shows(w.Clock(b));
  }

  lemma QuietStepKeepsInv(w: World, w': World, a: string)
    requires Inv(w) && w'.ClocksInEra()
    requires Advance(w, w') || Deadline(w, w', a) || Restart(w, w', a)
    ensures Inv(w')
  {
    hide FormatTs, Genuine, AnsweringInv, DatagramsInv;
    StableFacts(w, w');
    OtherRunners(w, w', a);
    if a in w'.runners && w'.runners[a].answering.Some? {
      AnsweringIsStable(w, w', a, w.runners[a].answering.value.0, w.runners[a].answering.value.1);
    }
  }

  lemma NextKeepsInv(w: World, w': World)
    requires Inv(w) && Next(w, w')
    ensures Inv(w')
  {
    hide Inv, Receive, Answer, SendProbe;
    if Advance(w, w') {
      QuietStepKeepsInv(w, w', "");
    } else if a, peer :| SendProbe(w, w', a, peer) {
      SendProbeKeepsInv(w, w', a, peer);
    } else if a, m :| Receive(w, w', a, m) {
      ReceiveKeepsInv(w, w', a, m);
    } else if b, k: nat :| Answer(w, w', b, k) {
      AnswerKeepsInv(w, w', b, k);
    } else if a :| Deadline(w, w', a) || Restart(w, w', a) {
      QuietStepKeepsInv(w, w', a);
    }
  }

  lemma {:induction false} EveryWorldKeepsInv(ws: seq<World>, i: nat)
    requires Run(ws) && i < |ws|
    ensures Inv(ws[i])
  {
    if i > 0 {
      EveryWorldKeepsInv(ws, i - 1);
      NextKeepsInv(ws[i - 1], ws[i]);
    }
  }

  // ----- the theorems -----

  /** In every run, every sample any runner keeps is a genuine exchange with the peer it probed:
      its round trip is not negative and its offset is within half of it (plus 1 ns) of the true
      clock difference. */
  lemma EverySampleIsGenuine(ws: seq<World>, i: nat, n: nat)
    requires Run(ws) && i < |ws| && n < |ws[i].recorded|
    ensures var w, r := ws[i], ws[i].recorded[n];
      && Genuine(w, r.probe, r.sample)
      && r.probe < |w.probes| && w.probes[r.probe].probe.owner in w.skew && w.probes[r.probe].probe.peer in w.skew
      && r.sample.RttNs() >= 0
      && WithinHalfRtt(r.sample.OffsetNs(), r.sample.RttNs(),
           w.skew[w.probes[r.probe].probe.peer] - w.skew[w.probes[r.probe].probe.owner])
  {
    EveryWorldKeepsInv(ws, i);
    GenuineBound(ws[i], ws[i].recorded[n].probe, ws[i].recorded[n].sample);
  }

  lemma GenuineBound(w: World, k: nat, s: Sample)
    requires Genuine(w, k, s)
    ensures s.RttNs() >= 0
    ensures WithinHalfRtt(s.OffsetNs(), s.RttNs(), w.skew[w.probes[k].probe.peer] - w.skew[w.probes[k].probe.owner])
  {
    var j: nat, t4At: int :| Exchange(w, k, j, t4At, s);
    var p, r := w.probes[k], w.replies[j];
    EraResultsFit(s, w.era);
    ExchangeBound(s, p.at, r.t2At, r.t3At, t4At, w.skew[p.probe.owner], w.skew[p.probe.peer]);
  }

  /** `samples` were kept by `self` for probes of `peer`, at the recorded positions `kept`. */
  ghost predicate KeptFor(w: World, self: string, peer: string, kept: seq<nat>, samples: seq<Sample>) {
    && |kept| == |samples| > 0
    && forall n :: 0 <= n < |kept| ==>
         && kept[n] < |w.recorded| && w.recorded[kept[n]].sample == samples[n]
         && w.recorded[kept[n]].probe < |w.probes|
         && w.probes[w.recorded[kept[n]].probe].probe.owner == self
         && w.probes[w.recorded[kept[n]].probe].probe.peer == peer
  }

  /** The round trip that decides a measurement's error: the least one, or the third least when
      the fallback fires. */
  function DecidingRtt(samples: seq<Sample>): int
    requires samples != []
  {
    if FallbackFires(samples) && |samples| >= 3 then ByRtt(samples)[2].0 else ByRtt(samples)[0].0
  }

  /** In every run, the measurement any runner takes from samples it kept for one peer is within
      half of the deciding round trip of the true clock difference. */
  lemma EveryMeasurementIsBounded(ws: seq<World>, i: nat, self: string, peer: string, kept: seq<nat>,
                                  samples: seq<Sample>)
    requires Run(ws) && i < |ws| && KeptFor(ws[i], self, peer, kept, samples)
    ensures self in ws[i].skew && peer in ws[i].skew
    ensures FallbackFires(samples) ==> |samples| >= 24
    ensures var bound := Ms(DecidingRtt(samples) + 1) / 2.0;
            var skew := ws[i].skew[peer] - ws[i].skew[self];
            -bound <= BestMeasurement(samples).value.offsetMs - Ms(skew) <= bound
  {
    hide Run, Genuine;
    var w := ws[i];
    forall n | 0 <= n < |kept|
      ensures self in w.skew && peer in w.skew
      ensures WithinHalfRtt(samples[n].OffsetNs(), samples[n].RttNs(), w.skew[peer] - w.skew[self])
    {
      EverySampleIsGenuine(ws, i, kept[n]);
    }
    assert samples[0] == w.recorded[kept[0]].sample;
    MeasurementBound(samples, w.skew[peer] - w.skew[self]);
    if FallbackFires(samples) {
      FallbackNeeds24Samples(samples);
    }
  }

  // ----- are ids enough? -----

  predicate CounterGrows(w: World, w': World) {
    forall r :: r in w.runners ==> r in w'.runners && w.runners[r].nextId <= w'.runners[r].nextId
  }

  /** No step sets a runner's id counter back. */
  predicate CountersGrow(ws: seq<World>) { forall i :: 0 <= i < |ws| - 1 ==> CounterGrows(ws[i], ws[i + 1]) }

  /** Probes of one runner carry different ids, all below its counter. */
  predicate IdsInv(w: World) {
    && (forall k :: 0 <= k < |w.probes| ==>
          var p := w.probes[k].probe; p.owner in w.runners && p.id < w.runners[p.owner].nextId)
    && (forall i, k :: 0 <= i < k < |w.probes| && w.probes[i].probe.owner == w.probes[k].probe.owner ==>
          w.probes[i].probe.id < w.probes[k].probe.id)
  }

  lemma NextKeepsIds(w: World, w': World)
    requires IdsInv(w) && Next(w, w') && CounterGrows(w, w')
    ensures IdsInv(w')
  {
    ProbesStayOrGrow(w, w');
    hide Next;
    var n := |w.probes|;
    forall k | 0 <= k < n ensures w'.probes[k] == w.probes[k] { }
    forall k | 0 <= k < |w'.probes|
      ensures var p := w'.probes[k].probe; p.owner in w'.runners && p.id < w'.runners[p.owner].nextId
    {
      if k < n { assert w.probes[k].probe.owner in w.runners; }
    }
    if |w'.probes| > n {
      forall i | 0 <= i < n && w.probes[i].probe.owner == w'.probes[n].probe.owner
        ensures w.probes[i].probe.id < w'.probes[n].probe.id
      {
      }
    }
  }

  lemma ProbesStayOrGrow(w: World, w': World)
    requires Next(w, w')
    ensures w'.probes == w.probes ||
      (|w'.probes| == |w.probes| + 1 && w.probes <= w'.probes &&
       var p := w'.probes[|w.probes|].probe;
       p.owner in w.runners && p.owner in w'.runners && p.id == w.runners[p.owner].nextId
         && w'.runners[p.owner].nextId == p.id + 1)
  {
    hide Request, Response, Judge, UpdatedReason;
  }

  /** While no counter goes back, `(from, to, id)` names one exchange, as the source remarks. */
  lemma {:induction false} IdsAreUniqueWhileCountersGrow(ws: seq<World>, n: nat)
    requires Run(ws) && CountersGrow(ws) && n < |ws|
    ensures IdsInv(ws[n])
  {
    hide Next;
    if n > 0 {
      IdsAreUniqueWhileCountersGrow(ws, n - 1);
      assert CounterGrows(ws[n - 1], ws[n - 1 + 1]);
      NextKeepsIds(ws[n - 1], ws[n]);
    }
  }

  function Sent(w: World, a: string, peer: string): World
    requires w.Runs(a) && FitsI64(w.Clock(a))
  {
    var p := Probe(a, peer, w.runners[a].nextId, w.Clock(a));
    w.(net := w.net + {Request(p)},
       runners := w.runners[a := Runner(p.id + 1, Some((|w.probes|, Timeout)), None)],
       probes := w.probes + [SentProbe(p, w.now)])
  }

  lemma SendingIsAStep(w: World, a: string, peer: string)
    requires w.Runs(a) && FitsI64(w.Clock(a)) && w.ClocksInEra()
    requires w.runners[a].waiting == None && w.runners[a].answering == None
    requires SentEarlier(w, a, peer)
    ensures NextWithoutRestart(w, Sent(w, a, peer))
  {
    hide Request;
    assert SendProbe(w, Sent(w, a, peer), a, peer);
  }

  lemma RestartIsAStep(w: World, a: string)
    requires w.Runs(a) && w.ClocksInEra()
    ensures Next(w, w.(runners := w.runners[a := Runner(1, None, None)]))
  {
    assert Restart(w, w.(runners := w.runners[a := Runner(1, None, None)]), a);
  }

  lemma LaterIsAStep(w: World, w': World)
    requires Advance(w, w') && w'.ClocksInEra()
    ensures NextWithoutRestart(w, w') && Next(w, w')
  {
  }

  /** After a restart it does not: two probes with the same `(from, to, id)`, told apart only by
      their first timestamp. */
  lemma RestartReusesIds(a: string, b: string) returns (ws: seq<World>)
    requires a != b
    ensures Run(ws) && !CountersGrow(ws)
    ensures
      var w := ws[|ws| - 1];
      |w.probes| == 2 && w.probes[0].probe == w.probes[1].probe.(t1 := w.probes[0].probe.t1)
      && w.probes[0].probe.t1 != w.probes[1].probe.t1
  {
    hide NextWithoutRestart, Restart, Request;
    var blank := Runner(1, None, None);
    var w0 := World(0, 0, map[a := 0, b := 0], {}, map[a := blank, b := blank], [], [], []);
    SendingIsAStep(w0, a, b);
    var w1 := Sent(w0, a, b);
    RestartIsAStep(w1, a);
    var w2 := w1.(runners := w1.runners[a := blank]);
    var w3 := w2.(now := 1);
    LaterIsAStep(w2, w3);
    SendingIsAStep(w3, a, b);
    ws := [w0, w1, w2, w3, Sent(w3, a, b)];
    assert !CounterGrows(ws[1], ws[2]);
  }

  predicate Idle(w: World, a: string) {
    w.Runs(a) && w.runners[a].waiting == None && w.runners[a].answering == None
  }

  // ----- runs that measure something -----

  /** `b`, waiting for nothing, takes up a request addressed to it. */
  lemma TakingUpIsAStep(w: World, b: string, m: Message)
    requires Idle(w, b) && m in w.net && m.ProbeRequest? && m.to == b && w.ClocksInEra()
    ensures Next(w, w.(runners := w.runners[b := w.runners[b].(answering := Some((m, w.now)))]))
  {
    assert Receive(w, w.(runners := w.runners[b := w.runners[b].(answering := Some((m, w.now)))]), b, m);
  }

  function Replied(w: World, b: string, k: nat, m: Message, t2At: int): World
    requires w.Runs(b) && m.ProbeRequest? && FitsI64(t2At + w.skew[b]) && FitsI64(w.Clock(b))
  {
    w.(net := w.net + {Response(m, t2At + w.skew[b], w.Clock(b))},
       runners := w.runners[b := w.runners[b].(answering := None)],
       replies := w.replies + [Reply(k, b, t2At, w.now)])
  }

  lemma ReplyingIsAStep(w: World, b: string, k: nat, m: Message, t2At: int)
    requires w.Runs(b) && w.runners[b].answering == Some((m, t2At)) && w.ClocksInEra()
    requires IsRequestOf(w, m, k) && FitsI64(t2At + w.skew[b])
    ensures m.ProbeRequest? && FitsI64(w.Clock(b)) && Next(w, Replied(w, b, k, m, t2At))
  {
    hide FormatTs;
    assert w.Shows(w.Clock(b));
    assert Answer(w, Replied(w, b, k, m, t2At), b, k);
  }

  function RecordedBy(w: World, a: string, k: nat, s: Sample): World
    requires w.Runs(a)
  {
    w.(runners := w.runners[a := w.runners[a].(waiting := None)], recorded := w.recorded + [Recorded(k, s)])
  }

  /** The answer to the probe in flight is recorded. */
  lemma RecordingIsAStep(w: World, a: string, k: nat, worst: ProbeResult, t2: int, t3: int)
    requires w.Runs(a) && w.runners[a].waiting == Some((k, worst)) && w.runners[a].answering == None
    requires k < |w.probes| && FitsI64(w.probes[k].probe.t1) && w.probes[k].probe.owner == a
    requires FitsI64(t2) && FitsI64(t3) && w.ClocksInEra()
    requires Response(Request(w.probes[k].probe), t2, t3) in w.net
    ensures Next(w, RecordedBy(w, a, k, Sample(w.probes[k].probe.t1, t2, t3, w.Clock(a))))
  {
    hide FormatTs, ParseTimestamp;
    ParseUndoesFormat(t2);
    ParseUndoesFormat(t3);
    var m := Response(Request(w.probes[k].probe), t2, t3);
    assert w.Shows(w.Clock(a));
    assert Receive(w, RecordedBy(w, a, k, Sample(w.probes[k].probe.t1, t2, t3, w.Clock(a))), a, m);
  }

  function TwoRunners(a: string, b: string, skew: nat): World {
    World(0, 0, map[a := 0, b := skew], {}, map[a := Runner(1, None, None), b := Runner(1, None, None)], [], [], [])
  }

  /** A probe is sent and, `there` later, taken up. */
  lemma ExchangeBegins(a: string, b: string, skew: nat, there: nat) returns (w1: World, w2: World, w3: World)
    requires a != b && skew + there < ERA
    ensures var w0 := TwoRunners(a, b, skew);
      && Init(w0) && Next(w0, w1) && Next(w1, w2) && Next(w2, w3)
      && w0.Runs(a) && FitsI64(w0.Clock(a)) && w1 == Sent(w0, a, b)
    ensures b in w1.runners
    ensures var m := Request(Probe(a, b, 1, 0));
      w3 == w1.(now := there, runners := w1.runners[b := w1.runners[b].(answering := Some((m, there)))])
  {
    hide NextWithoutRestart, Restart, Response, FormatTs;
    var w0 := TwoRunners(a, b, skew);
    SendingIsAStep(w0, a, b);
    w1 := Sent(w0, a, b);
    w2 := w1.(now := there);
    LaterIsAStep(w1, w2);
    var m := Request(Probe(a, b, 1, 0));
    TakingUpIsAStep(w2, b, m);
    w3 := w2.(runners := w2.runners[b := w2.runners[b].(answering := Some((m, there)))]);
  }

  /** Runs do record samples: for any skew and any one-way delays within the era, a run records the
      exchange that took them. */
  lemma AnyExchangeIsRecorded(a: string, b: string, skew: nat, there: nat, back: nat) returns (ws: seq<World>)
    requires a != b && skew + there + back < ERA
    ensures Run(ws)
    ensures
      var w := ws[|ws| - 1];
      && w.skew == map[a := 0, b := skew]
      && |w.probes| == 1 && w.probes[0].probe == Probe(a, b, 1, 0)
      && w.recorded == [Recorded(0, Sample(0, there + skew, there + skew, there + back))]
  {
    hide Next, Init, Response, FormatTs;
    var w0 := TwoRunners(a, b, skew);
    var w1, w2, w3 := ExchangeBegins(a, b, skew, there);
    ReplyingIsAStep(w3, b, 0, Request(Probe(a, b, 1, 0)), there);
    var w4 := Replied(w3, b, 0, Request(Probe(a, b, 1, 0)), there);
    var w5 := w4.(now := there + back);
    LaterIsAStep(w4, w5);
    RecordingIsAStep(w5, a, 0, Timeout, there + skew, there + skew);
    var w6 := RecordedBy(w5, a, 0, Sample(0, there + skew, there + skew, there + back));
    ws := [w0, w1, w2, w3, w4, w5, w6];
  }

  // ----- exactly when ids stay enough -----

  /** No two probes sent so far share `(from, to, id)`. */
  predicate UniqueIds(w: World) {
    forall i, k :: 0 <= i < k < |w.probes| && SamePair(w.probes[i].probe, w.probes[k].probe) ==>
      w.probes[i].probe.id != w.probes[k].probe.id
  }

  /** Every id in use is below the counter of its runner. */
  predicate BelowCounters(w: World) {
    forall k :: 0 <= k < |w.probes| ==>
      var p := w.probes[k].probe; p.owner in w.runners && p.id < w.runners[p.owner].nextId
  }

  /** A further course of events in which no runner restarts. */
  ghost predicate Continuation(w: World, ws: seq<World>) {
    ws != [] && ws[0] == w && forall i :: 0 <= i < |ws| - 1 ==> NextWithoutRestart(ws[i], ws[i + 1])
  }

  lemma ProbesAndCounters(w: World, w': World)
    requires NextWithoutRestart(w, w')
    ensures CounterGrows(w, w')
  {
    hide Request, Response, Judge, UpdatedReason;
  }

  lemma StepKeepsBelowCounters(w: World, w': World)
    requires NextWithoutRestart(w, w') && BelowCounters(w)
    ensures BelowCounters(w')
  {
    ProbesStayOrGrow(w, w');
    ProbesAndCounters(w, w');
    hide NextWithoutRestart;
    var n := |w.probes|;
    forall k | 0 <= k < |w'.probes|
      ensures var p := w'.probes[k].probe; p.owner in w'.runners && p.id < w'.runners[p.owner].nextId
    {
      if k < n { assert w'.probes[k] == w.probes[k] && w.probes[k].probe.owner in w.runners; }
    }
  }

  lemma StepKeepsUniqueIds(w: World, w': World)
    requires NextWithoutRestart(w, w') && UniqueIds(w) && BelowCounters(w)
    ensures UniqueIds(w') && BelowCounters(w')
  {
    StepKeepsBelowCounters(w, w');
    ProbesStayOrGrow(w, w');
    hide NextWithoutRestart;
    forall k | 0 <= k < |w.probes| ensures w'.probes[k] == w.probes[k] { }
  }

  lemma {:induction false} ContinuationKeepsUniqueIds(w: World, ws: seq<World>, n: nat)
    requires Continuation(w, ws) && UniqueIds(w) && BelowCounters(w) && n < |ws|
    ensures UniqueIds(ws[n]) && BelowCounters(ws[n])
  {
    hide NextWithoutRestart, UniqueIds, BelowCounters;
    if n > 0 {
      ContinuationKeepsUniqueIds(w, ws, n - 1);
      StepKeepsUniqueIds(ws[n - 1], ws[n]);
    }
  }

  /** Every clock still has `n` nanoseconds of its era ahead. */
  predicate Room(w: World, n: nat) { forall r :: r in w.skew ==> w.Shows(w.Clock(r)) && w.Shows(w.Clock(r) + n) }

  predicate SentByNow(w: World) { forall k :: 0 <= k < |w.probes| ==> w.probes[k].at <= w.now }

  lemma Prepend(w: World, ws: seq<World>)
    requires ws != [] && NextWithoutRestart(w, ws[0]) && Continuation(ws[0], ws)
    ensures Continuation(w, [w] + ws)
  {
    hide NextWithoutRestart;
    var all := [w] + ws;
    forall i | 0 <= i < |all| - 1 ensures NextWithoutRestart(all[i], all[i + 1]) {
      if i > 0 { assert all[i] == ws[i - 1] && all[i + 1] == ws[i - 1 + 1]; }
    }
  }

  /** An idle runner's counter can reach any id, and the id is then in use for any peer. */
  lemma {:induction false} CounterReaches(w: World, a: string, b: string, id: nat) returns (ws: seq<World>, k: nat)
    requires Idle(w, a) && SentByNow(w) && w.runners[a].nextId <= id && Room(w, id - w.runners[a].nextId + 1)
    ensures Continuation(w, ws)
    ensures
      var last := ws[|ws| - 1];
      w.probes <= last.probes && |w.probes| <= k < |last.probes|
      && last.probes[k].probe.owner == a && last.probes[k].probe.peer == b && last.probes[k].probe.id == id
    decreases id - w.runners[a].nextId
  {
    hide NextWithoutRestart, Request;
    var w1 := w.(now := w.now + 1);
    LaterIsAStep(w, w1);
    SendingIsAStep(w1, a, b);
    var w2 := Sent(w1, a, b);
    if w.runners[a].nextId == id {
      ws, k := [w, w1, w2], |w.probes|;
    } else {
      var w3 := w2.(runners := w2.runners[a := w2.runners[a].(waiting := None)]);
      DeadlineIsAStep(w2, a);
      ws, k := CounterReaches(w3, a, b, id);
      Prepend(w2, ws);
      Prepend(w1, [w2] + ws);
      Prepend(w, [w1] + ([w2] + ws));
      ws := [w] + ([w1] + ([w2] + ws));
    }
  }

  lemma DeadlineIsAStep(w: World, a: string)
    requires w.Runs(a) && w.ClocksInEra()
    ensures NextWithoutRestart(w, w.(runners := w.runners[a := w.runners[a].(waiting := None)]))
  {
    assert Deadline(w, w.(runners := w.runners[a := w.runners[a].(waiting := None)]), a);
  }

  /** Any runner can finish what it is doing without restarting. */
  lemma BecomesIdle(w: World, a: string) returns (ws: seq<World>)
    requires Inv(w) && w.Runs(a)
    ensures Continuation(w, ws)
    ensures
      var last := ws[|ws| - 1];
      Idle(last, a) && last.now == w.now && last.skew == w.skew && last.era == w.era && last.probes == w.probes
      && last.runners[a].nextId == w.runners[a].nextId
  {
    hide NextWithoutRestart, Request, Response, FormatTs, Genuine, DatagramsInv;
    var w1 := w.(runners := w.runners[a := w.runners[a].(waiting := None)]);
    DeadlineIsAStep(w, a);
    if w.runners[a].answering == None {
      ws := [w, w1];
    } else {
      var (m, t2At) := w.runners[a].answering.value;
      assert AnsweringInv(w, a, m, t2At);
      var k: nat :| IsRequestOf(w, m, k) && w.probes[k].at <= t2At;
      assert w1.Shows(w1.Clock(a));
      var w2 := w1.(net := w1.net + {Response(m, t2At + w1.skew[a], w1.Clock(a))},
                    runners := w1.runners[a := w1.runners[a].(answering := None)],
                    replies := w1.replies + [Reply(k, a, t2At, w1.now)]);
      AnsweringIsAStep(w1, w2, a, k);
      ws := [w, w1, w2];
    }
  }

  lemma AnsweringIsAStep(w: World, w': World, b: string, k: nat)
    requires Answer(w, w', b, k) && w'.ClocksInEra()
    ensures NextWithoutRestart(w, w')
  {
  }

  lemma Joined(w: World, first: seq<World>, second: seq<World>)
    requires Continuation(w, first) && Continuation(first[|first| - 1], second)
    ensures Continuation(w, first + second[1..])
  {
    hide NextWithoutRestart;
    var all := first + second[1..];
    forall i | 0 <= i < |all| - 1 ensures NextWithoutRestart(all[i], all[i + 1]) {
      if i >= |first| - 1 {
        var j := i - (|first| - 1);
        assert all[i] == second[j] && all[i + 1] == second[j + 1];
      }
    }
  }

  /** The clocks have room for every runner's counter to pass every id in use. */
  predicate RoomForReuse(w: World) {
    forall k :: 0 <= k < |w.probes| && w.probes[k].probe.owner in w.runners ==>
      var p := w.probes[k].probe;
      p.id >= w.runners[p.owner].nextId ==> Room(w, p.id - w.runners[p.owner].nextId + 1)
  }

  /** A counter at or below a used id comes to use it again. */
  lemma ReusesId(w: World, k: nat) returns (ws: seq<World>)
    requires Inv(w) && RoomForReuse(w) && k < |w.probes| && w.Runs(w.probes[k].probe.owner)
    requires w.probes[k].probe.id >= w.runners[w.probes[k].probe.owner].nextId
    ensures Continuation(w, ws) && !UniqueIds(ws[|ws| - 1])
  {
    hide NextWithoutRestart;
    var p := w.probes[k].probe;
    var first := BecomesIdle(w, p.owner);
    var idle := first[|first| - 1];
    assert SentByNow(idle) by {
      forall j | 0 <= j < |w.probes| ensures w.probes[j].at <= w.now { assert ProbeInv(w, j); }
    }
    hide Inv;
    var second, j := CounterReaches(idle, p.owner, p.peer, p.id);
    Joined(w, first, second);
    ws := first + second[1..];
    assert ws[|ws| - 1] == second[|second| - 1];
    assert SamePair(ws[|ws| - 1].probes[k].probe, ws[|ws| - 1].probes[j].probe);
  }

  lemma IdsStayUniqueFrom(w: World)
    requires Inv(w) && w.skew.Keys == w.runners.Keys && RoomForReuse(w)
    ensures (forall ws :: Continuation(w, ws) ==> UniqueIds(ws[|ws| - 1])) <==> UniqueIds(w) && BelowCounters(w)
  {
    if UniqueIds(w) && BelowCounters(w) {
      forall ws | Continuation(w, ws) ensures UniqueIds(ws[|ws| - 1]) {
        ContinuationKeepsUniqueIds(w, ws, |ws| - 1);
      }
    } else if !UniqueIds(w) {
      assert Continuation(w, [w]);
    } else {
      var k :| 0 <= k < |w.probes| && (w.probes[k].probe.owner in w.runners ==>
        w.probes[k].probe.id >= w.runners[w.probes[k].probe.owner].nextId);
      assert ProbeInv(w, k);
      var ws := ReusesId(w, k);
    }
  }

  /** Every world of a run has a clock for each runner and a runner for each clock. */
  lemma {:induction false} EveryRunnerHasAClock(ws: seq<World>, n: nat)
    requires Run(ws) && n < |ws|
    ensures ws[n].skew.Keys == ws[n].runners.Keys
  {
    hide Next;
    if n > 0 {
      EveryRunnerHasAClock(ws, n - 1);
      StepKeepsRunners(ws[n - 1], ws[n]);
    }
  }

  lemma StepKeepsRunners(w: World, w': World)
    requires Next(w, w') && w.skew.Keys == w.runners.Keys
    ensures w'.skew.Keys == w'.runners.Keys
  {
    hide Request, Response, Judge, UpdatedReason;
  }

  /** In every world of a run, `(from, to, id)` names one exchange now and however things go on
      without restarts, exactly when no two probes share it so far and no runner's counter is at or
      below an id it has used. */
  lemma IdsStayUniqueExactlyWhen(ws: seq<World>, n: nat)
    requires Run(ws) && n < |ws| && RoomForReuse(ws[n])
    ensures (forall vs :: Continuation(ws[n], vs) ==> UniqueIds(vs[|vs| - 1]))
      <==> UniqueIds(ws[n]) && BelowCounters(ws[n])
  {
    hide Run, Inv, Continuation, UniqueIds, BelowCounters, RoomForReuse;
    EveryWorldKeepsInv(ws, n);
    EveryRunnerHasAClock(ws, n);
    IdsStayUniqueFrom(ws[n]);
  }
}
