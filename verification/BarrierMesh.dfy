/** The barrier channel after start-up: broadcasts, reader threads and drains, interleaved over one
    byte pipe for each ordered pair of connected runners. Assumed of the environment: a pipe keeps
    bytes in order, a read that times out consumes nothing, and a broken connection loses bytes
    only from its end. */
module BarrierMesh {
  import opened Options
  import opened Bytes
  import opened BarrierFraming

  datatype Message =
    | Ready(name: Name, variant: string, run: string)
    | Done(name: Name, variant: string, run: string, status: string, exitCode: int)
    | OtherMessage

  /** The JSON coding of messages, of which only the round trip matters here. */
  datatype Codec = Codec(encode: Message -> seq<Byte>, decode: seq<Byte> -> Option<Message>) {
    ghost predicate Lawful() { forall m :: decode(encode(m)) == Some(m) }
  }

  function Payloads(c: Codec, messages: seq<Message>): seq<seq<Byte>> {
    seq(|messages|, i requires 0 <= i < |messages| => c.encode(messages[i]))
  }

  /** What a reader thread makes of the frames it reads: unreadable ones and other kinds are
      dropped. */
  function Kept(c: Codec, frames: seq<seq<Byte>>): seq<Message> {
    if frames == [] then []
    else
      Kept(c, frames[..|frames| - 1]) +
      match c.decode(frames[|frames| - 1])
      case Some(Ready(name, variant, run)) => [Ready(name, variant, run)]
      case Some(Done(name, variant, run, status, exitCode)) => [Done(name, variant, run, status, exitCode)]
      case _ => []
  }

  function BarrierOnly(messages: seq<Message>): seq<Message> {
    if messages == [] then []
    else
      var m := messages[|messages| - 1];
      BarrierOnly(messages[..|messages| - 1]) + if m.Ready? || m.Done? then [m] else []
  }

  /** One direction of one connection: the bytes on their way, the reader thread, its inbox. */
  datatype Pipe = Pipe(bytes: seq<Byte>, broken: bool, reading: bool, inbox: seq<Message>) {
    function After(more: seq<Byte>): Pipe { if broken then this else this.(bytes := bytes + more) }
  }

  /** What has happened on a pipe: messages written, one that failed and its bytes that got out,
      frames read, messages drained. */
  datatype Log = Log(
    sent: seq<Message>, failed: Option<Message>, torn: seq<Byte>, read: seq<seq<Byte>>, drained: seq<Message>)
  {
    function Bytes(c: Codec): seq<Byte> { Stream(Payloads(c, sent)) + torn }

    predicate TornRightly(c: Codec) {
      match failed
      case None => torn == []
      case Some(m) => |torn| < |FrameOf(c.encode(m))| && torn == FrameOf(c.encode(m))[..|torn|]
    }
  }

  const FRESH_PIPE := Pipe([], false, true, [])
  const EMPTY_LOG := Log([], None, [], [], [])

  /** The conservation law of a pipe; `open` if the writer still holds the peer. */
  predicate Conserved(c: Codec, p: Pipe, l: Log, open: bool) {
    var all, left := Decode(l.Bytes(c)), Decode(p.bytes);
    && (open ==> l.failed.None?) && l.TornRightly(c)
    && l.drained + p.inbox == Kept(c, l.read)
    && (if p.broken then l.read + left.frames <= all.frames else all == left.After(l.read))
    && (!p.reading && !p.broken ==> left.frames == [] && left.dead)
  }

  // ----- what each step keeps -----

  lemma FreshConserved(c: Codec, open: bool)
    ensures Conserved(c, FRESH_PIPE, EMPTY_LOG, open)
  {
    StarvedAtEnd();
    assert Stream(Payloads(c, [])) + [] == [];
    assert Decode([]).After([]) == Decode([]);
  }

  lemma {:induction false} StreamAppends(payloads: seq<seq<Byte>>, payload: seq<Byte>)
    ensures Stream(payloads + [payload]) == Stream(payloads) + FrameOf(payload)
  {
    hide FrameOf;
    if payloads == [] {
      assert ([] + [payload])[1..] == payloads;
      assert Stream([]) == [];
    } else {
      StreamAppends(payloads[1..], payload);
      assert (payloads + [payload])[1..] == payloads[1..] + [payload];
    }
  }

  /** Bytes written behind what is on its way are read behind it. */
  lemma WriteGrows(c: Codec, p: Pipe, read: seq<seq<Byte>>, all: seq<Byte>, more: seq<Byte>)
    requires
      if p.broken then read + Decode(p.bytes).frames <= Decode(all).frames
      else Decode(all) == Decode(p.bytes).After(read)
    ensures var q := p.After(more);
      if q.broken then read + Decode(q.bytes).frames <= Decode(all + more).frames
      else Decode(all + more) == Decode(q.bytes).After(read)
    ensures !p.broken && Decode(p.bytes).dead ==>
      Decode(p.After(more).bytes).dead && Decode(p.After(more).bytes).frames == Decode(p.bytes).frames
  {
    hide Decode;
    DecodeIsIncremental(all, more);
    DecodeIsIncremental(p.bytes, more);
    if !p.broken && !Decode(all).dead {
      AfterAfter(Decode(Decode(p.bytes).rest + more), read, Decode(p.bytes).frames);
    }
  }

  lemma WriteKeeps(c: Codec, p: Pipe, l: Log, m: Message)
    requires Conserved(c, p, l, true)
    ensures Conserved(c, p.After(FrameOf(c.encode(m))), l.(sent := l.sent + [m]), true)
  {
    hide Decode, FrameOf, Stream;
    var frame := FrameOf(c.encode(m));
    StreamAppends(Payloads(c, l.sent), c.encode(m));
    assert Payloads(c, l.sent + [m]) == Payloads(c, l.sent) + [c.encode(m)];
    assert l.(sent := l.sent + [m]).Bytes(c) == l.Bytes(c) + frame;
    WriteGrows(c, p, l.read, l.Bytes(c), frame);
  }

  function Failed(c: Codec, l: Log, m: Message, k: nat): Log
    requires k <= |FrameOf(c.encode(m))|
  {
    l.(failed := Some(m), torn := FrameOf(c.encode(m))[..k])
  }

  lemma FailedWriteKeeps(c: Codec, p: Pipe, l: Log, m: Message, k: nat)
    requires Conserved(c, p, l, true) && k < |FrameOf(c.encode(m))|
    ensures Conserved(c, p.After(FrameOf(c.encode(m))[..k]), Failed(c, l, m, k), false)
  {
    hide Decode, FrameOf, Stream;
    assert Failed(c, l, m, k).Bytes(c) == l.Bytes(c) + FrameOf(c.encode(m))[..k];
    WriteGrows(c, p, l.read, l.Bytes(c), FrameOf(c.encode(m))[..k]);
  }

  /** One turn of a reader thread. At the end of the bytes it waits, unless the connection is over. A
      writer that only drops its peer does not end it: the peer's own reader still holds the socket. */
  function Turn(c: Codec, p: Pipe): Pipe {
    if !p.reading then p
    else
      match ReadFrom(p.bytes, FRAME_CAP)
      case Frame(payload, rest) => p.(bytes := rest, inbox := p.inbox + Kept(c, [payload]))
      case Starved => p.(reading := !p.broken)
      case Oversize => p.(reading := false)
  }

  function TurnLog(p: Pipe, l: Log): Log {
    if !p.reading then l
    else
      match ReadFrom(p.bytes, FRAME_CAP)
      case Frame(payload, _) => l.(read := l.read + [payload])
      case _ => l
  }

  lemma TurnKeeps(c: Codec, p: Pipe, l: Log, open: bool)
    requires Conserved(c, p, l, open)
    ensures Conserved(c, Turn(c, p), TurnLog(p, l), open)
  {
    hide ReadFrom, FrameOf, Stream;
    if p.reading && ReadFrom(p.bytes, FRAME_CAP).Frame? {
      var Frame(payload, rest) := ReadFrom(p.bytes, FRAME_CAP);
      assert Decode(p.bytes) == Decode(rest).After([payload]);
      AfterAfter(Decode(rest), l.read, [payload]);
      assert l.read + ([payload] + Decode(rest).frames) == l.read + [payload] + Decode(rest).frames;
      KeptOneMore(c, l.read, payload);
      assert l.drained + (p.inbox + Kept(c, [payload])) == l.drained + p.inbox + Kept(c, [payload]);
    }
  }

  lemma KeptOneMore(c: Codec, frames: seq<seq<Byte>>, payload: seq<Byte>)
    ensures Kept(c, frames + [payload]) == Kept(c, frames) + Kept(c, [payload])
  {
    assert (frames + [payload])[..|frames|] == frames;
    assert [payload][..0] == [];
    assert Kept(c, []) == [];
  }

  lemma BreakKeeps(c: Codec, p: Pipe, l: Log, open: bool, k: nat)
    requires Conserved(c, p, l, open) && k <= |p.bytes|
    ensures Conserved(c, p.(broken := true, bytes := p.bytes[..k]), l, open)
  {
    hide Decode;
    DecodeIsIncremental(p.bytes[..k], p.bytes[k..]);
    assert p.bytes[..k] + p.bytes[k..] == p.bytes;
  }

  lemma DrainKeeps(c: Codec, p: Pipe, l: Log, open: bool)
    requires Conserved(c, p, l, open)
    ensures Conserved(c, p.(inbox := []), l.(drained := l.drained + p.inbox), open)
  {
    assert l.drained + p.inbox + [] == l.drained + p.inbox;
  }

  // ----- what the law means -----

  lemma {:induction false} KeptOfPayloads(c: Codec, messages: seq<Message>)
    requires c.Lawful()
    ensures Kept(c, Payloads(c, messages)) == BarrierOnly(messages)
  {
    if messages != [] {
      var n := |messages| - 1;
      KeptOfPayloads(c, messages[..n]);
      assert Payloads(c, messages)[..n] == Payloads(c, messages[..n]);
    }
  }

  lemma {:induction false} KeptIsMonotone(c: Codec, frames: seq<seq<Byte>>, more: seq<seq<Byte>>)
    ensures Kept(c, frames + more) == Kept(c, frames) + Kept(c, more)
  {
    if more == [] {
      assert frames + more == frames;
    } else {
      var n := |more| - 1;
      KeptIsMonotone(c, frames, more[..n]);
      KeptOneMore(c, frames + more[..n], more[n]);
      KeptOneMore(c, more[..n], more[n]);
      assert frames + more[..n] + [more[n]] == frames + more && more[..n] + [more[n]] == more;
    }
  }

  /** A cut frame behind whole ones adds nothing to what is decoded. */
  lemma TornTailAddsNothing(payloads: seq<seq<Byte>>, payload: seq<Byte>, k: nat)
    requires Castable(payloads) && |payload| < WORD && k < |FrameOf(payload)|
    ensures Decode(Stream(payloads) + FrameOf(payload)[..k]).frames == payloads[..Fitting(payloads)]
  {
    hide ReadFrom, FrameOf, Stream;
    DecodeUndoesStream(payloads, FrameOf(payload)[..k]);
    TornFrameIsNotRead(payload, k, FRAME_CAP);
    assert payloads[..|payloads|] == payloads;
    assert payloads + [] == payloads;
  }

  predicate Sendable(c: Codec, l: Log) {
    Castable(Payloads(c, l.sent)) && (l.failed.Some? ==> |c.encode(l.failed.value)| < WORD)
  }

  /** The barrier messages a pipe carries: all those written before the first one whose payload is
      above the cap. */
  function Carried(c: Codec, l: Log): seq<Message> { CarriedOf(c, l.sent) }

  function CarriedOf(c: Codec, sent: seq<Message>): seq<Message> { BarrierOnly(sent[..Fitting(Payloads(c, sent))]) }

  /** Drained, in the inbox and undecoded together are what the pipe carries. */
  predicate InOrder(c: Codec, p: Pipe, l: Log) {
    var got := l.drained + p.inbox + Kept(c, Decode(p.bytes).frames);
    if p.broken then got <= Carried(c, l) else got == Carried(c, l)
  }

  /** Drained, then in the inbox, then still undecoded: exactly the barrier messages written, in
      order, nothing lost or repeated, up to the first one above the cap. On a broken connection
      they are a prefix. */
  lemma NothingLostOrRepeated(c: Codec, p: Pipe, l: Log, open: bool)
    requires c.Lawful() && Conserved(c, p, l, open) && Sendable(c, l)
    ensures InOrder(c, p, l)
  {
    hide Decode, FrameOf, Stream;
    var payloads, left := Payloads(c, l.sent), Decode(p.bytes);
    var n := Fitting(payloads);
    var all := Decode(l.Bytes(c)).frames;
    assert all == payloads[..n] by {
      StarvedAtEnd();
      if l.failed.Some? {
        TornTailAddsNothing(payloads, c.encode(l.failed.value), |l.torn|);
      } else {
        DecodeUndoesStream(payloads, []);
        assert payloads[..|payloads|] == payloads && payloads + [] == payloads;
      }
    }
    assert payloads[..n] == Payloads(c, l.sent[..n]);
    KeptOfPayloads(c, l.sent[..n]);
    KeptIsMonotone(c, l.read, left.frames);
    if p.broken {
      KeptIsMonotone(c, l.read + left.frames, all[|l.read + left.frames|..]);
      assert l.read + left.frames + all[|l.read + left.frames|..] == all;
    }
  }

  /** The law in its plain form: only barrier messages within the cap were broadcast, the connection
      holds, and the reader has caught up. Then the other side has them all. */
  lemma CaughtUpReaderHasAll(c: Codec, p: Pipe, l: Log, open: bool)
    requires c.Lawful() && Conserved(c, p, l, open) && !p.broken && l.failed.None?
    requires forall i :: 0 <= i < |l.sent| ==>
      (l.sent[i].Ready? || l.sent[i].Done?) && |c.encode(l.sent[i])| <= FRAME_CAP
    requires !ReadFrom(p.bytes, FRAME_CAP).Frame?
    ensures l.drained + p.inbox == l.sent && p.bytes == []
  {
    hide FrameOf, Stream;
    var payloads := Payloads(c, l.sent);
    assert Fitting(payloads) == |payloads|;
    NothingLostOrRepeated(c, p, l, open);
    assert l.sent[..|l.sent|] == l.sent;
    OnlyBarrierMessages(l.sent);
    DecodeUndoesStream(payloads, []);
    StarvedAtEnd();
    assert Kept(c, Decode(p.bytes).frames) == [];
    assert Decode(p.bytes).After(l.read).rest == p.bytes;
  }

  lemma {:induction false} OnlyBarrierMessages(messages: seq<Message>)
    requires forall i :: 0 <= i < |messages| ==> messages[i].Ready? || messages[i].Done?
    ensures BarrierOnly(messages) == messages
  {
    if messages != [] {
      OnlyBarrierMessages(messages[..|messages| - 1]);
    }
  }

  // ----- reader threads make progress -----

  /** A turn takes a whole frame within the cap off the bytes, and what it says into the inbox. */
  lemma TurnTakesAFrame(c: Codec, p: Pipe, payload: seq<Byte>, rest: seq<Byte>)
    requires p.reading && |payload| <= 16_384 && p.bytes == FrameOf(payload) + rest
    ensures Turn(c, p).bytes == rest && Turn(c, p).reading
    ensures match c.decode(payload)
            case Some(m) => Turn(c, p).inbox == p.inbox + if m.Ready? || m.Done? then [m] else []
            case None => Turn(c, p).inbox == p.inbox
  {
    hide ReadFrom, FrameOf;
    ReadUndoesFrame(payload, rest, FRAME_CAP);
    KeptOfOne(c, payload);
  }

  lemma KeptOfOne(c: Codec, payload: seq<Byte>)
    ensures Kept(c, [payload]) ==
      match c.decode(payload)
      case Some(m) => if m.Ready? || m.Done? then [m] else []
      case None => []
  {
    assert [payload][..0] == [] && Kept(c, []) == [];
  }

  /** What the next turn does with whatever frame is in front. */
  predicate TakesTheFrame(c: Codec, p: Pipe, q: Pipe, payload: seq<Byte>, rest: seq<Byte>) {
    p.reading && |payload| <= 16_384 && p.bytes == FrameOf(payload) + rest ==>
      && q.bytes == rest && q.reading
      && match c.decode(payload)
         case Some(m) => q.inbox == p.inbox + if m.Ready? || m.Done? then [m] else []
         case None => q.inbox == p.inbox
  }

  lemma TurnTakesAnyFrame(c: Codec, p: Pipe)
    ensures forall payload, rest :: TakesTheFrame(c, p, Turn(c, p), payload, rest)
  {
    hide Turn, FrameOf;
    forall payload, rest ensures TakesTheFrame(c, p, Turn(c, p), payload, rest) {
      if p.reading && |payload| <= 16_384 && p.bytes == FrameOf(payload) + rest {
        TurnTakesAFrame(c, p, payload, rest);
      }
    }
  }

  // ----- the mesh -----

  type Pair = (Name, Name)

  /** Does the write to `p` go out whole, and which bytes go out? */
  predicate Whole(c: Codec, m: Message, rooms: map<Name, nat>, p: Name) {
    p in rooms ==> |FrameOf(c.encode(m))| <= rooms[p]
  }

  function Taken(c: Codec, m: Message, rooms: map<Name, nat>, p: Name): seq<Byte> {
    var frame := FrameOf(c.encode(m));
    if Whole(c, m, rooms, p) then frame else frame[..rooms[p]]
  }

  function Logged(c: Codec, l: Log, m: Message, rooms: map<Name, nat>, p: Name): Log {
    if Whole(c, m, rooms, p) then l.(sent := l.sent + [m]) else Failed(c, l, m, rooms[p])
  }

  datatype Step =
    | Broadcast(sender: Name, message: Message, rooms: map<Name, nat>)
    | ReaderTurn(from: Name, to: Name)
    | Break(from: Name, to: Name, keep: nat)
    | DrainInbox(at: Name, from: Name)
    | DrainAll(at: Name)

  /** Exactly the pipes from `r` to `peers` have been written to. */
  ghost predicate Written(c: Codec, m: Message, rooms: map<Name, nat>, r: Name, peers: set<Name>,
                          pipes: map<Pair, Pipe>, logs: map<Pair, Log>, pipes': map<Pair, Pipe>, logs': map<Pair, Log>)
  {
    && pipes'.Keys == pipes.Keys && logs'.Keys == logs.Keys
    && (forall k :: k in pipes ==>
          pipes'[k] == if k.0 == r && k.1 in peers then pipes[k].After(Taken(c, m, rooms, k.1)) else pipes[k])
    && (forall k :: k in logs ==>
          logs'[k] == if k.0 == r && k.1 in peers then Logged(c, logs[k], m, rooms, k.1) else logs[k])
  }

  lemma WrittenOneMore(c: Codec, m: Message, rooms: map<Name, nat>, r: Name, peers: set<Name>,
                       pipes: map<Pair, Pipe>, logs: map<Pair, Log>, pipes': map<Pair, Pipe>, logs': map<Pair, Log>,
                       p: Name)
    requires Written(c, m, rooms, r, peers, pipes, logs, pipes', logs')
    requires p !in peers && (r, p) in pipes && (r, p) in logs
    ensures Written(c, m, rooms, r, peers + {p}, pipes, logs,
      pipes'[(r, p) := pipes'[(r, p)].After(Taken(c, m, rooms, p))],
      logs'[(r, p) := Logged(c, logs'[(r, p)], m, rooms, p)])
  {
    hide Taken, Logged;
  }

  /** The law on every pipe, those from `r` to a peer in `failed` being closed. */
  ghost predicate AllConserved(c: Codec, pipes: map<Pair, Pipe>, logs: map<Pair, Log>, writers: map<Name, set<Name>>,
                               r: Name, failed: set<Name>)
  {
    && logs.Keys == pipes.Keys
    && (forall a, b :: a in writers && b in writers[a] ==> (a, b) in pipes)
    && (forall k :: k in pipes ==> Conserved(c, pipes[k], logs[k], StaysOpen(writers, r, failed, k)))
  }

  predicate StaysOpen(writers: map<Name, set<Name>>, r: Name, failed: set<Name>, k: Pair) {
    k.0 in writers && k.1 in writers[k.0] && !(k.0 == r && k.1 in failed)
  }

  lemma StillOpen(c: Codec, pipes: map<Pair, Pipe>, logs: map<Pair, Log>, writers: map<Name, set<Name>>,
                  r: Name, failed: set<Name>, p: Name)
    requires AllConserved(c, pipes, logs, writers, r, failed) && r in writers && p in writers[r] && p !in failed
    ensures var k := (r, p); k in pipes && k in logs && Conserved(c, pipes[k], logs[k], true)
  {
    hide Conserved;
    assert StaysOpen(writers, r, failed, (r, p));
  }

  lemma ConservedOneMore(c: Codec, pipes: map<Pair, Pipe>, logs: map<Pair, Log>, writers: map<Name, set<Name>>,
                         r: Name, failed: set<Name>, p: Name, q: Pipe, l: Log, whole: bool)
    requires AllConserved(c, pipes, logs, writers, r, failed) && r in writers && p in writers[r] && p !in failed
    requires Conserved(c, q, l, whole)
    ensures AllConserved(c, pipes[(r, p) := q], logs[(r, p) := l], writers, r, if whole then failed else failed + {p})
  {
    hide Conserved;
  }

  lemma ClosedByNow(c: Codec, pipes: map<Pair, Pipe>, logs: map<Pair, Log>, writers: map<Name, set<Name>>,
                    r: Name, failed: set<Name>)
    requires AllConserved(c, pipes, logs, writers, r, failed) && r in writers
    ensures AllConserved(c, pipes, logs, writers[r := writers[r] - failed], [], {})
  {
    hide Conserved;
    var writers' := writers[r := writers[r] - failed];
    forall k | k in pipes ensures StaysOpen(writers', [], {}, k) == StaysOpen(writers, r, failed, k) {
    }
  }

  /** The inbox is emptied into the log, and nothing else changes. */
  predicate IsDrained(p: Pipe, l: Log, p': Pipe, l': Log) {
    p' == p.(inbox := []) && l' == l.(drained := l.drained + p.inbox)
  }

  // ----- what a schedule does to one pipe -----

  /** Everything about one pipe: does the writer hold the peer, the pipe, what has happened on it. */
  datatype End = End(open: bool, pipe: Pipe, log: Log)

  function AfterStep(c: Codec, k: Pair, e: End, step: Step): End {
    match step
    case Broadcast(r, m, rooms) =>
      if r == k.0 && e.open then
        End(Whole(c, m, rooms, k.1), e.pipe.After(Taken(c, m, rooms, k.1)), Logged(c, e.log, m, rooms, k.1))
      else e
    case ReaderTurn(from, to) =>
      if (from, to) == k then e.(pipe := Turn(c, e.pipe), log := TurnLog(e.pipe, e.log)) else e
    case Break(from, to, keep) =>
      if (from, to) == k && keep <= |e.pipe.bytes|
      then e.(pipe := e.pipe.(broken := true, bytes := e.pipe.bytes[..keep])) else e
    case DrainInbox(at, from) => if (from, at) == k then Drained(e) else e
    case DrainAll(at) => if at == k.1 then Drained(e) else e
  }

  function Drained(e: End): End {
    e.(pipe := e.pipe.(inbox := []), log := e.log.(drained := e.log.drained + e.pipe.inbox))
  }

  function AfterSteps(c: Codec, k: Pair, e: End, steps: seq<Step>): End
    decreases |steps|
  {
    if steps == [] then e else AfterSteps(c, k, AfterStep(c, k, e, steps[0]), steps[1..])
  }

  /** The messages a schedule writes to a pipe: those its writer broadcasts while it holds the peer,
      up to the first write that does not go out whole. */
  function SentIn(c: Codec, steps: seq<Step>, k: Pair, open: bool): seq<Message>
    decreases |steps|
  {
    if steps == [] || !open then []
    else
      match steps[0]
      case Broadcast(r, m, rooms) =>
        if r != k.0 then SentIn(c, steps[1..], k, true)
        else if Whole(c, m, rooms, k.1) then [m] + SentIn(c, steps[1..], k, true)
        else []
      case _ => SentIn(c, steps[1..], k, true)
  }

  /** All messages a schedule broadcasts have a length that fits the prefix. */
  predicate SmallIn(c: Codec, steps: seq<Step>) {
    forall i :: 0 <= i < |steps| && steps[i].Broadcast? ==> |c.encode(steps[i].message)| < WORD
  }

  /** Only drains change what has been drained. */
  lemma DrainsOnly(c: Codec, step: Step)
    ensures !step.DrainInbox? && !step.DrainAll? ==>
      forall k, e :: AfterStep(c, k, e, step).log.drained == e.log.drained
  {
    hide Taken, Turn;
  }

  lemma SentOneStep(c: Codec, k: Pair, e: End, steps: seq<Step>)
    requires steps != []
    ensures var e' := AfterStep(c, k, e, steps[0]);
      e'.log.sent + SentIn(c, steps[1..], k, e'.open) == e.log.sent + SentIn(c, steps, k, e.open)
  {
    hide Taken, Turn;
    if steps[0].Broadcast? && steps[0].sender == k.0 && e.open && Whole(c, steps[0].message, steps[0].rooms, k.1) {
      var m, later := steps[0].message, SentIn(c, steps[1..], k, true);
      assert e.log.sent + [m] + later == e.log.sent + ([m] + later);
    }
  }

  /** What the log of a pipe says was written is what the schedule broadcast on it. */
  lemma {:induction false} SentIsWhatWasBroadcast(c: Codec, k: Pair, e: End, steps: seq<Step>)
    ensures AfterSteps(c, k, e, steps).log.sent == e.log.sent + SentIn(c, steps, k, e.open)
    decreases |steps|
  {
    hide AfterStep;
    if steps != [] {
      SentIsWhatWasBroadcast(c, k, AfterStep(c, k, e, steps[0]), steps[1..]);
      SentOneStep(c, k, e, steps);
    }
  }

  lemma PayloadsOneMore(c: Codec, messages: seq<Message>, m: Message)
    ensures Payloads(c, messages + [m]) == Payloads(c, messages) + [c.encode(m)]
  {
  }

  lemma StaysSendable(c: Codec, k: Pair, e: End, step: Step)
    requires Sendable(c, e.log) && (step.Broadcast? ==> |c.encode(step.message)| < WORD)
    ensures Sendable(c, AfterStep(c, k, e, step).log)
  {
    hide Taken, Turn;
    if step.Broadcast? {
      PayloadsOneMore(c, e.log.sent, step.message);
    }
  }

  lemma {:induction false} SmallSchedulesStaySendable(c: Codec, k: Pair, e: End, steps: seq<Step>)
    requires Sendable(c, e.log) && SmallIn(c, steps)
    ensures Sendable(c, AfterSteps(c, k, e, steps).log)
    decreases |steps|
  {
    hide AfterStep, Sendable;
    if steps != [] {
      StaysSendable(c, k, e, steps[0]);
      SmallSchedulesStaySendable(c, k, AfterStep(c, k, e, steps[0]), steps[1..]);
    }
  }

  /** Messages that drains handed over, by pipe. */
  function Got(received: map<Pair, seq<Message>>, k: Pair): seq<Message> {
    if k in received then received[k] else []
  }

  function Merged(received: map<Pair, seq<Message>>, taken: map<Pair, seq<Message>>): map<Pair, seq<Message>> {
    map k | k in received.Keys + taken.Keys :: Got(received, k) + Got(taken, k)
  }

  lemma MergedGot(received: map<Pair, seq<Message>>, taken: map<Pair, seq<Message>>)
    ensures forall k :: Got(Merged(received, taken), k) == Got(received, k) + Got(taken, k)
  {
  }

  /** Delivery on one pipe, from an empty log: what the drains handed over, what is in the inbox and
      what is undecoded are the messages the schedule wrote. */
  predicate Delivered(c: Codec, steps: seq<Step>, k: Pair, open: bool, p: Pipe, handed: seq<Message>) {
    var got := handed + p.inbox + Kept(c, Decode(p.bytes).frames);
    var carried := CarriedOf(c, SentIn(c, steps, k, open));
    if p.broken then got <= carried else got == carried
  }

  lemma ScheduleDelivers(c: Codec, steps: seq<Step>, k: Pair, e: End, e': End, handed: seq<Message>)
    requires c.Lawful() && SmallIn(c, steps) && e.log == EMPTY_LOG && e' == AfterSteps(c, k, e, steps)
    requires Conserved(c, e'.pipe, e'.log, e'.open) && e'.log.drained == handed
    ensures Delivered(c, steps, k, e.open, e'.pipe, handed)
  {
    hide Conserved, Decode, AfterSteps, SentIn, Payloads;
    SentIsWhatWasBroadcast(c, k, e, steps);
    assert [] + SentIn(c, steps, k, e.open) == SentIn(c, steps, k, e.open);
    NothingIsSendable(c);
    SmallSchedulesStaySendable(c, k, e, steps);
    NothingLostOrRepeated(c, e'.pipe, e'.log, e'.open);
  }

  lemma NothingIsSendable(c: Codec)
    ensures Sendable(c, EMPTY_LOG)
  {
  }

  // ----- enough turns and a drain deliver everything -----

  function Turns(k: Pair, n: nat): (steps: seq<Step>)
    ensures |steps| == n && forall i :: 0 <= i < n ==> steps[i] == ReaderTurn(k.0, k.1)
  {
    if n == 0 then [] else [ReaderTurn(k.0, k.1)] + Turns(k, n - 1)
  }

  lemma {:induction false} AfterBoth(c: Codec, k: Pair, e: End, first: seq<Step>, second: seq<Step>)
    ensures AfterSteps(c, k, e, first + second) == AfterSteps(c, k, AfterSteps(c, k, e, first), second)
    decreases |first|
  {
    hide AfterStep;
    if first == [] {
      assert first + second == second;
    } else {
      assert (first + second)[1..] == first[1..] + second;
      AfterBoth(c, k, AfterStep(c, k, e, first[0]), first[1..], second);
    }
  }

  /** As many turns as there are bytes leave no whole frame, on a connection that holds. */
  lemma {:induction false} TurnsReadAll(c: Codec, k: Pair, e: End, n: nat)
    requires Conserved(c, e.pipe, e.log, e.open) && !e.pipe.broken && n >= |e.pipe.bytes|
    ensures
      var e' := AfterSteps(c, k, e, Turns(k, n));
      && Conserved(c, e'.pipe, e'.log, e'.open) && !e'.pipe.broken && e'.open == e.open
      && e'.log.sent == e.log.sent && e'.log.failed == e.log.failed
      && Decode(e'.pipe.bytes).frames == []
    decreases n
  {
    hide FrameOf, Stream, Conserved;
    if n == 0 {
      StarvedAtEnd();
    } else {
      var e1 := AfterStep(c, k, e, ReaderTurn(k.0, k.1));
      TurnKeeps(c, e.pipe, e.log, e.open);
      assert Turns(k, n)[1..] == Turns(k, n - 1);
      if e.pipe.reading && ReadFrom(e.pipe.bytes, FRAME_CAP).Frame? {
        TurnsReadAll(c, k, e1, n - 1);
      } else {
        StoppedReader(c, e.pipe, e.log, e.open);
        IdleTurns(c, k, e1, n - 1);
      }
    }
  }

  lemma StoppedReader(c: Codec, p: Pipe, l: Log, open: bool)
    requires Conserved(c, p, l, open) && !p.broken && (p.reading ==> !ReadFrom(p.bytes, FRAME_CAP).Frame?)
    ensures Decode(p.bytes).frames == []
  {
  }

  /** A reader without a whole frame stays so. */
  lemma {:induction false} IdleTurns(c: Codec, k: Pair, e: End, n: nat)
    requires Conserved(c, e.pipe, e.log, e.open) && !e.pipe.broken && Decode(e.pipe.bytes).frames == []
    ensures
      var e' := AfterSteps(c, k, e, Turns(k, n));
      && Conserved(c, e'.pipe, e'.log, e'.open) && !e'.pipe.broken && e'.open == e.open
      && e'.log.sent == e.log.sent && e'.log.failed == e.log.failed
      && Decode(e'.pipe.bytes).frames == []
    decreases n
  {
    hide FrameOf, Stream, Conserved;
    if n > 0 {
      TurnKeeps(c, e.pipe, e.log, e.open);
      assert Turns(k, n)[1..] == Turns(k, n - 1);
      IdleTurns(c, k, AfterStep(c, k, e, ReaderTurn(k.0, k.1)), n - 1);
    }
  }

  /** Reading to the end and draining hands over everything: after any schedule that leaves the
      connection whole, enough reader turns and one drain have handed over exactly the `Ready` and
      `Done` messages the schedule wrote, in order, if all are within the cap. */
  lemma EverythingIsHandedOver(c: Codec, k: Pair, open: bool, first: seq<Step>, n: nat)
    requires c.Lawful() && SmallIn(c, first)
    requires
      var sent := SentIn(c, first, k, open);
      forall i :: 0 <= i < |sent| ==> (sent[i].Ready? || sent[i].Done?) && |c.encode(sent[i])| <= 16_384
    requires
      var p := AfterSteps(c, k, End(open, FRESH_PIPE, EMPTY_LOG), first).pipe;
      !p.broken && n >= |p.bytes|
    ensures
      var e := AfterSteps(c, k, End(open, FRESH_PIPE, EMPTY_LOG), first + Turns(k, n) + [DrainInbox(k.1, k.0)]);
      e.log.drained == SentIn(c, first, k, open) && e.pipe.inbox == []
  {
    hide AfterStep, Conserved, Decode, SentIn, Sendable, SmallIn;
    var e0 := End(open, FRESH_PIPE, EMPTY_LOG);
    var e1 := AfterSteps(c, k, e0, first);
    var e2 := AfterSteps(c, k, e1, Turns(k, n));
    FreshConserved(c, open);
    StepsKeepLaw(c, k, e0, first);
    NothingIsSendable(c);
    SmallSchedulesStaySendable(c, k, e0, first);
    SentIsWhatWasBroadcast(c, k, e0, first);
    assert [] + SentIn(c, first, k, open) == SentIn(c, first, k, open);
    TurnsReadAll(c, k, e1, n);
    SameSendable(c, e1.log, e2.log);
    NothingLostOrRepeated(c, e2.pipe, e2.log, e2.open);
    AllFit(c, e2.log);
    AfterBoth(c, k, e0, first, Turns(k, n));
    AfterBoth(c, k, e0, first + Turns(k, n), [DrainInbox(k.1, k.0)]);
    OneDrain(c, k, e2);
  }

  lemma SameSendable(c: Codec, l: Log, l': Log)
    requires Sendable(c, l) && l'.sent == l.sent && l'.failed == l.failed
    ensures Sendable(c, l')
  {
  }

  lemma AllFit(c: Codec, l: Log)
    requires forall i :: 0 <= i < |l.sent| ==>
      (l.sent[i].Ready? || l.sent[i].Done?) && |c.encode(l.sent[i])| <= FRAME_CAP
    ensures Carried(c, l) == l.sent
  {
    var payloads := Payloads(c, l.sent);
    assert forall i :: 0 <= i < |payloads| ==> |payloads[i]| <= FRAME_CAP;
    assert Fitting(payloads) == |payloads|;
    assert l.sent[..|l.sent|] == l.sent;
    OnlyBarrierMessages(l.sent);
  }

  lemma OneDrain(c: Codec, k: Pair, e: End)
    ensures AfterSteps(c, k, e, [DrainInbox(k.1, k.0)]) == Drained(e)
  {
    var step := DrainInbox(k.1, k.0);
    assert [step][1..] == [];
    assert AfterSteps(c, k, Drained(e), []) == Drained(e);
  }

  lemma StepKeepsLaw(c: Codec, k: Pair, e: End, step: Step)
    requires Conserved(c, e.pipe, e.log, e.open)
    ensures var e' := AfterStep(c, k, e, step); Conserved(c, e'.pipe, e'.log, e'.open)
  {
    hide Conserved, Turn, TurnLog;
    match step {
      case Broadcast(r, m, rooms) =>
        if r == k.0 && e.open {
          if Whole(c, m, rooms, k.1) {
            WriteKeeps(c, e.pipe, e.log, m);
          } else {
            FailedWriteKeeps(c, e.pipe, e.log, m, rooms[k.1]);
          }
        }
      case ReaderTurn(from, to) => TurnKeeps(c, e.pipe, e.log, e.open);
      case Break(from, to, keep) => if keep <= |e.pipe.bytes| { BreakKeeps(c, e.pipe, e.log, e.open, keep); }
      case DrainInbox(at, from) => DrainKeeps(c, e.pipe, e.log, e.open);
      case DrainAll(at) => DrainKeeps(c, e.pipe, e.log, e.open);
    }
  }

  /** The law of a pipe holds after every schedule. */
  lemma {:induction false} StepsKeepLaw(c: Codec, k: Pair, e: End, steps: seq<Step>)
    requires Conserved(c, e.pipe, e.log, e.open)
    ensures var e' := AfterSteps(c, k, e, steps); Conserved(c, e'.pipe, e'.log, e'.open)
    decreases |steps|
  {
    hide Conserved, AfterStep;
    if steps != [] {
      StepKeepsLaw(c, k, e, steps[0]);
      StepsKeepLaw(c, k, AfterStep(c, k, e, steps[0]), steps[1..]);
    }
  }

  /** All coordinators of a run. Pipe `(a, b)` is the connection `a` writes and `b` reads. */
  class Mesh {
    const codec: Codec
    var writers: map<Name, set<Name>>
    var pipes: map<Pair, Pipe>
    ghost var logs: map<Pair, Log>

    predicate Open(k: Pair) reads this { k.0 in writers && k.1 in writers[k.0] }

    ghost predicate Valid()
      reads this
    {
      logs.Keys == pipes.Keys && AllConserved(codec, pipes, logs, writers, [], {})
    }

    /** The mesh `start` leaves: `connected[a]` are the peers `a` installed. */
    constructor (c: Codec, connected: map<Name, set<Name>>)
      ensures Valid() && codec == c && writers == connected
      ensures pipes.Keys == (set a, b | a in connected && b in connected[a] :: (a, b))
      ensures forall k :: k in pipes ==> pipes[k] == FRESH_PIPE && logs[k] == EMPTY_LOG
    {
      codec, writers := c, connected;
      pipes := map a, b | a in connected && b in connected[a] :: (a, b) := FRESH_PIPE;
      logs := map a, b | a in connected && b in connected[a] :: (a, b) := EMPTY_LOG;
      new;
      forall k | k in pipes ensures Conserved(codec, pipes[k], logs[k], Open(k)) {
        FreshConserved(codec, Open(k));
      }
    }

    lemma BroadcastStarts(r: Name, m: Message, rooms: map<Name, nat>)
      requires Valid() && r in writers
      ensures AllConserved(codec, pipes, logs, writers, r, {})
      ensures forall p :: p in writers[r] ==> (r, p) in pipes && (r, p) in logs
      ensures Written(codec, m, rooms, r, writers[r] - writers[r], pipes, logs, pipes, logs)
    {
      hide Conserved;
    }

    /** Write to one peer; `k` is open until then, and after it if the frame went out whole. */
    method WriteTo(k: Pair, m: Message, rooms: map<Name, nat>) returns (whole: bool)
      requires k in pipes && k in logs && Conserved(codec, pipes[k], logs[k], true)
      modifies this`pipes, this`logs
      ensures whole == Whole(codec, m, rooms, k.1)
      ensures pipes == old(pipes)[k := old(pipes)[k].After(Taken(codec, m, rooms, k.1))]
      ensures logs == old(logs)[k := Logged(codec, old(logs)[k], m, rooms, k.1)]
      ensures Conserved(codec, pipes[k], logs[k], whole)
    {
      hide Conserved;
      var payload, written := codec.encode(m), [];
      whole, written := WriteFrame([], payload, if k.1 in rooms then rooms[k.1] else |FrameOf(payload)|);
      assert written == Taken(codec, m, rooms, k.1);
      if whole {
        WriteKeeps(codec, pipes[k], logs[k], m);
      } else {
        FailedWriteKeeps(codec, pipes[k], logs[k], m, |written|);
      }
      logs := logs[k := Logged(codec, logs[k], m, rooms, k.1)];
      pipes := pipes[k := pipes[k].After(written)];
    }

    /** Each write goes out whole, or stops after `rooms[p]` bytes; then the peer is dropped. */
    method Broadcast(r: Name, m: Message, rooms: map<Name, nat>) returns (ok: set<Name>)
      requires Valid() && r in writers
      modifies this
      ensures Valid()
      ensures ok == set p | p in old(writers[r]) && Whole(codec, m, rooms, p)
      ensures writers == old(writers)[r := ok]
      ensures Written(codec, m, rooms, r, old(writers[r]), old(pipes), old(logs), pipes, logs)
    {
      hide Conserved, Whole, Written, AllConserved;
      var snapshot, failed := writers[r], {};
      ok := {};
      var todo := snapshot;
      BroadcastStarts(r, m, rooms);
      while todo != {}
        invariant todo <= snapshot && writers == old(writers)
        invariant ok + failed == snapshot - todo && ok !! failed
        invariant forall p :: p in ok ==> Whole(codec, m, rooms, p)
        invariant forall p :: p in failed ==> !Whole(codec, m, rooms, p)
        invariant logs.Keys == pipes.Keys && AllConserved(codec, pipes, logs, writers, r, failed)
        invariant Written(codec, m, rooms, r, snapshot - todo, old(pipes), old(logs), pipes, logs)
        decreases todo
      {
        var peer :| peer in todo;
        ghost var ps, ls := pipes, logs;
        StillOpen(codec, pipes, logs, writers, r, failed, peer);
        var whole := WriteTo((r, peer), m, rooms);
        WrittenOneMore(codec, m, rooms, r, snapshot - todo, old(pipes), old(logs), ps, ls, peer);
        ConservedOneMore(codec, ps, ls, writers, r, failed, peer, pipes[(r, peer)], logs[(r, peer)], whole);
        assert snapshot - (todo - {peer}) == snapshot - todo + {peer};
        todo := todo - {peer};
        if whole {
          ok := ok + {peer};
        } else {
          failed := failed + {peer};
        }
      }
      assert snapshot - failed == ok && snapshot - {} == snapshot;
      writers := writers[r := writers[r] - failed];
      ClosedByNow(codec, pipes, logs, old(writers), r, failed);
    }

    /** One turn of the reader thread of `to` for its peer `from`. */
    method ReaderTurn(from: Name, to: Name)
      requires Valid() && (from, to) in pipes
      modifies this
      ensures Valid() && writers == old(writers)
      ensures pipes == old(pipes)[(from, to) := Turn(codec, old(pipes)[(from, to)])]
      ensures logs == old(logs)[(from, to) := TurnLog(old(pipes)[(from, to)], old(logs)[(from, to)])]
      ensures forall payload, rest ::
        TakesTheFrame(codec, old(pipes)[(from, to)], pipes[(from, to)], payload, rest)
    {
      hide Conserved, Turn, TurnLog, TakesTheFrame;
      var k := (from, to);
      TurnKeeps(codec, pipes[k], logs[k], Open(k));
      TurnTakesAnyFrame(codec, pipes[k]);
      logs := logs[k := TurnLog(pipes[k], logs[k])];
      pipes := pipes[k := Turn(codec, pipes[k])];
    }

    /** The environment breaks a connection; only its first `keep` bytes still arrive. */
    method Break(from: Name, to: Name, keep: nat)
      requires Valid() && (from, to) in pipes && keep <= |pipes[(from, to)].bytes|
      modifies this`pipes
      ensures Valid()
      ensures
        var k := (from, to);
        pipes == old(pipes)[k := old(pipes)[k].(broken := true, bytes := old(pipes)[k].bytes[..keep])]
    {
      hide Conserved;
      var k := (from, to);
      BreakKeeps(codec, pipes[k], logs[k], Open(k), keep);
      pipes := pipes[k := pipes[k].(broken := true, bytes := pipes[k].bytes[..keep])];
    }

    method DrainInbox(at: Name, peer: Name) returns (messages: seq<Message>)
      requires Valid()
      modifies this`pipes, this`logs
      ensures Valid()
      ensures var k := (peer, at);
        if k in old(pipes) then
          && messages == old(pipes)[k].inbox && k in pipes && k in logs
          && IsDrained(old(pipes)[k], old(logs)[k], pipes[k], logs[k])
          && pipes == old(pipes)[k := pipes[k]] && logs == old(logs)[k := logs[k]]
        else messages == [] && pipes == old(pipes) && logs == old(logs)
    {
      hide Conserved;
      var k := (peer, at);
      if k !in pipes {
        return [];
      }
      messages := pipes[k].inbox;
      DrainKeeps(codec, pipes[k], logs[k], Open(k));
      logs := logs[k := logs[k].(drained := logs[k].drained + messages)];
      pipes := pipes[k := pipes[k].(inbox := [])];
    }

    /** Empties every inbox of `at`; peers without messages are left out of the result. */
    method DrainAllInboxes(at: Name) returns (out: map<Name, seq<Message>>)
      requires Valid()
      modifies this`pipes, this`logs
      ensures Valid() && pipes.Keys == old(pipes.Keys)
      ensures forall a :: a in out <==> (a, at) in old(pipes) && old(pipes)[(a, at)].inbox != []
      ensures forall a :: a in out ==> out[a] == old(pipes)[(a, at)].inbox
      ensures forall k :: k in pipes ==>
        if k.1 == at then IsDrained(old(pipes)[k], old(logs)[k], pipes[k], logs[k])
        else pipes[k] == old(pipes)[k] && logs[k] == old(logs)[k]
    {
      hide Conserved, AllConserved, IsDrained;
      out := map[];
      var todo := set k | k in pipes && k.1 == at :: k.0;
      ghost var all := todo;
      assert forall a :: (a, at) in pipes <==> a in all by {
        forall a | (a, at) in pipes ensures a in all { assert (a, at).0 == a; }
      }
      while todo != {}
        invariant todo <= all && Valid() && pipes.Keys == old(pipes.Keys)
        invariant forall a :: a in out <==> a in all - todo && old(pipes)[(a, at)].inbox != []
        invariant forall a :: a in out ==> out[a] == old(pipes)[(a, at)].inbox
        invariant logs.Keys == pipes.Keys
        invariant forall k :: k in pipes ==>
          if k.1 == at && k.0 !in todo then IsDrained(old(pipes)[k], old(logs)[k], pipes[k], logs[k])
          else pipes[k] == old(pipes)[k] && logs[k] == old(logs)[k]
        decreases todo
      {
        var peer :| peer in todo;
        todo := todo - {peer};
        var drained := DrainInbox(at, peer);
        if drained != [] {
          out := out[peer := drained];
        }
      }
    }

    ghost function EndOf(k: Pair): End
      requires k in pipes && k in logs
      reads this
    {
      End(Open(k), pipes[k], logs[k])
    }

    /** A broadcast, as a step. */
    method PerformBroadcast(r: Name, m: Message, rooms: map<Name, nat>)
      requires Valid()
      modifies this
      ensures Valid() && pipes.Keys == old(pipes.Keys)
      ensures forall k :: k in pipes ==> EndOf(k) == AfterStep(codec, k, old(EndOf(k)), Step.Broadcast(r, m, rooms))
    {
      hide Conserved, AllConserved, Turn, Taken, Logged, Whole;
      if r in writers {
        var _ := Broadcast(r, m, rooms);
      }
    }

    /** A turn or a break, as a step. */
    method PerformOnPipe(step: Step)
      requires Valid() && (step.ReaderTurn? || step.Break?)
      modifies this
      ensures Valid() && pipes.Keys == old(pipes.Keys)
      ensures forall k :: k in pipes ==> EndOf(k) == AfterStep(codec, k, old(EndOf(k)), step)
    {
      hide Conserved, AllConserved, Turn, Taken, Logged, TurnLog;
      match step {
        case ReaderTurn(from, to) =>
          if (from, to) in pipes { ReaderTurn(from, to); }
        case Break(from, to, keep) =>
          if (from, to) in pipes && keep <= |pipes[(from, to)].bytes| { Break(from, to, keep); }
      }
    }

    /** A drain, as a step; `taken` is what it returns. */
    method PerformDrain(step: Step) returns (taken: map<Pair, seq<Message>>)
      requires Valid() && (step.DrainInbox? || step.DrainAll?)
      modifies this
      ensures Valid() && pipes.Keys == old(pipes.Keys)
      ensures forall k :: k in pipes ==> EndOf(k) == AfterStep(codec, k, old(EndOf(k)), step)
      ensures forall k :: k in pipes ==> logs[k].drained == old(logs[k]).drained + Got(taken, k)
    {
      hide Conserved, AllConserved;
      match step {
        case DrainInbox(at, from) =>
          var messages := DrainInbox(at, from);
          taken := map[(from, at) := messages];
        case DrainAll(at) =>
          var out := DrainAllInboxes(at);
          taken := map a | a in out :: (a, at) := out[a];
      }
    }

    /** One step of a schedule; `taken` is what its drains return. */
    method Perform(step: Step) returns (taken: map<Pair, seq<Message>>)
      requires Valid()
      modifies this
      ensures Valid() && pipes.Keys == old(pipes.Keys)
      ensures forall k :: k in pipes ==> EndOf(k) == AfterStep(codec, k, old(EndOf(k)), step)
      ensures forall k :: k in pipes ==> logs[k].drained == old(logs[k]).drained + Got(taken, k)
    {
      taken := map[];
      DrainsOnly(codec, step);
      hide Conserved, AllConserved, AfterStep;
      if step.Broadcast? {
        PerformBroadcast(step.sender, step.message, step.rooms);
      } else if step.ReaderTurn? || step.Break? {
        PerformOnPipe(step);
      } else {
        taken := PerformDrain(step);
      }
    }

    lemma PipeIsConserved(k: Pair)
      requires Valid() && k in pipes
      ensures k in logs && Conserved(codec, pipes[k], logs[k], Open(k))
    {
      hide Conserved;
      assert StaysOpen(writers, [], {}, k) == Open(k);
    }

    lemma PipesAreInOrder()
      requires Valid() && codec.Lawful()
      ensures forall k :: k in pipes && Sendable(codec, logs[k]) ==> InOrder(codec, pipes[k], logs[k])
    {
      hide Conserved, AllConserved, Sendable;
      forall k | k in pipes && Sendable(codec, logs[k]) ensures InOrder(codec, pipes[k], logs[k]) {
        PipeIsConserved(k);
        NothingLostOrRepeated(codec, pipes[k], logs[k], Open(k));
      }
    }

    lemma AllDelivered(starts: map<Pair, End>, steps: seq<Step>, received: map<Pair, seq<Message>>)
      requires Valid() && codec.Lawful() && SmallIn(codec, steps) && starts.Keys == pipes.Keys
      requires forall k :: k in pipes ==> EndOf(k) == AfterSteps(codec, k, starts[k], steps)
      requires forall k :: k in pipes ==> logs[k].drained == starts[k].log.drained + Got(received, k)
      ensures forall k :: k in pipes && starts[k].log == EMPTY_LOG ==>
        Delivered(codec, steps, k, starts[k].open, pipes[k], Got(received, k))
    {
      hide Conserved, AllConserved, AfterSteps, SmallIn, Delivered;
      forall k | k in pipes && starts[k].log == EMPTY_LOG
        ensures Delivered(codec, steps, k, starts[k].open, pipes[k], Got(received, k))
      {
        PipeIsConserved(k);
        assert logs[k].drained == Got(received, k);
        ScheduleDelivers(codec, steps, k, starts[k], EndOf(k), Got(received, k));
      }
    }

    /** All steps in turn; `received` collects what the drains return. */
    method PerformAll(steps: seq<Step>) returns (received: map<Pair, seq<Message>>)
      requires Valid()
      modifies this
      ensures Valid() && pipes.Keys == old(pipes.Keys)
      ensures forall k :: k in pipes ==> EndOf(k) == AfterSteps(codec, k, old(EndOf(k)), steps)
      ensures forall k :: k in pipes ==> logs[k].drained == old(logs[k]).drained + Got(received, k)
    {
      hide Conserved, AllConserved, AfterStep, Merged;
      received := map[];
      for i := 0 to |steps|
        invariant Valid() && pipes.Keys == old(pipes.Keys)
        invariant forall k :: k in pipes ==>
          AfterSteps(codec, k, EndOf(k), steps[i..]) == AfterSteps(codec, k, old(EndOf(k)), steps)
        invariant forall k :: k in pipes ==> logs[k].drained == old(logs[k]).drained + Got(received, k)
      {
        assert steps[i..][0] == steps[i] && steps[i..][1..] == steps[i + 1..];
        var taken := Perform(steps[i]);
        MergedGot(received, taken);
        received := Merged(received, taken);
      }
    }

    /** Any interleaving of broadcasts, reader turns, broken connections and drains. Each pipe ends as
        the steps make it. Whatever a pipe started with, the law holds on it; on one that started
        fresh, exactly the messages the schedule wrote were handed over, are in the inbox or are
        still undecoded, in order. */
    method RunSchedule(steps: seq<Step>) returns (received: map<Pair, seq<Message>>)
      requires Valid()
      modifies this
      ensures Valid() && pipes.Keys == old(pipes.Keys)
      ensures forall k :: k in pipes ==> EndOf(k) == AfterSteps(codec, k, old(EndOf(k)), steps)
      ensures forall k :: k in pipes ==> logs[k].sent == old(logs[k]).sent + SentIn(codec, steps, k, old(Open(k)))
      ensures forall k :: k in pipes ==> logs[k].drained == old(logs[k]).drained + Got(received, k)
      ensures codec.Lawful() ==>
        forall k :: k in pipes && Sendable(codec, logs[k]) ==> InOrder(codec, pipes[k], logs[k])
      ensures codec.Lawful() && SmallIn(codec, steps) ==>
        forall k :: k in pipes && old(logs[k]) == EMPTY_LOG ==>
          Delivered(codec, steps, k, old(Open(k)), pipes[k], Got(received, k))
    {
      hide Conserved, AllConserved, AfterSteps, SentIn, Sendable, SmallIn, Delivered, InOrder;
      ghost var starts := map k | k in pipes :: EndOf(k);
      received := PerformAll(steps);
      forall k | k in pipes
        ensures logs[k].sent == starts[k].log.sent + SentIn(codec, steps, k, starts[k].open)
      {
        SentIsWhatWasBroadcast(codec, k, starts[k], steps);
      }
      if codec.Lawful() {
        PipesAreInOrder();
        if SmallIn(codec, steps) {
          AllDelivered(starts, steps, received);
        }
      }
    }
  }
}
