/** Forming the barrier mesh: every runner connects to the lower names and accepts the higher ones,
    all runners interleaved. Assumed of the environment: only runners connect to the listeners, and a
    write that is reported as failed did not deliver the whole handshake. */
module BarrierStart {
  import opened Options
  import opened Bytes
  import opened BarrierFraming

  type Pair = (Name, Name)

  // ----- who connects, and where to -----

  /** Of two different runners exactly one is the acceptor, the lower name; the other connects. */
  lemma OneSideAccepts(a: Name, b: Name)
    requires a != b
    ensures Less(a, b) <==> !Less(b, a)
  {
    LessIsTotal(a, b);
  }

  const BARRIER_TCP_OFFSET: nat := 96
  const U16: nat := 0x1_0000

  /** `base + 96 + index`, each addition checked, the index cast to 16 bits first. */
  function PortOf(base: nat, index: nat): Option<nat> {
    if base + BARRIER_TCP_OFFSET >= U16 then None
    else if base + BARRIER_TCP_OFFSET + index % U16 >= U16 then None
    else Some(base + BARRIER_TCP_OFFSET + index % U16)
  }

  /** Two listeners share a port exactly when their indices agree modulo 65536: never, for up to
      65536 runners. A port never wraps. */
  lemma PortsAreDistinct(base: nat, i: nat, j: nat)
    requires PortOf(base, i).Some? && PortOf(base, j).Some?
    ensures PortOf(base, i) == PortOf(base, j) <==> i % U16 == j % U16
    ensures i < U16 && j < U16 && i != j ==> PortOf(base, i) != PortOf(base, j)
    ensures i < U16 ==> base < PortOf(base, i).value == base + 96 + i < U16
  {
  }

  predicate Distinct(order: seq<Name>) { forall i, j :: 0 <= i < j < |order| ==> order[i] != order[j] }

  function NamesOf(order: seq<Name>): set<Name> { set r | r in order }

  // ----- the state of all start-ups -----

  /** A connection waiting at a listener, with the handshake bytes that reached it. */
  datatype Attempt = Attempt(from: Name, id: nat, bytes: seq<Byte>)

  /** `installed[(a, b)]` is the connection `a` installed for its peer `b`. */
  datatype State = State(
    installed: map<Pair, nat>, accepting: map<Name, set<Name>>, connecting: map<Name, set<Name>>,
    backlog: map<Name, seq<Attempt>>, nextId: nat)

  function Installed(s: State, r: Name): set<Name> { set k | k in s.installed && k.0 == r :: k.1 }

  function Start(order: seq<Name>): State {
    var names := NamesOf(order);
    State(map[],
          map r | r in names :: set p | p in names && p != r && Less(r, p),
          map r | r in names :: set p | p in names && p != r && !Less(r, p),
          map r | r in names :: [],
          0)
  }

  /** Installed, still to accept and still to connect: together all other runners, none twice. */
  predicate Partitioned(names: set<Name>, s: State, r: Name)
    requires r in s.accepting && r in s.connecting
  {
    && Installed(s, r) + s.accepting[r] + s.connecting[r] == names - {r}
    && Installed(s, r) !! s.accepting[r] && Installed(s, r) !! s.connecting[r] && s.accepting[r] !! s.connecting[r]
    && (forall p :: p in s.accepting[r] ==> Less(r, p))
    && (forall p :: p in s.connecting[r] ==> Less(p, r))
  }

  /** A waiting connection carries part of its owner's handshake; the whole of it only if the owner
      has installed this very connection. */
  predicate Honest(names: set<Name>, s: State, a: Name, w: Attempt) {
    && w.from in names && Less(a, w.from) && Hello(w.from).Some?
    && (if w.bytes == Hello(w.from).value then (w.from, a) in s.installed && s.installed[(w.from, a)] == w.id
        else |w.bytes| < |Hello(w.from).value| && w.bytes == Hello(w.from).value[..|w.bytes|])
  }

  predicate AllHonest(names: set<Name>, s: State) {
    && s.backlog.Keys == names
    && forall a, i :: a in names && 0 <= i < |s.backlog[a]| ==> Honest(names, s, a, s.backlog[a][i])
  }

  predicate AllPartitioned(names: set<Name>, s: State) {
    s.accepting.Keys == names && s.connecting.Keys == names && forall r :: r in names ==> Partitioned(names, s, r)
  }

  /** What the acceptor installed for a peer is what that peer installed for it. */
  predicate Matched(s: State, k: Pair)
    requires k in s.installed
  {
    && s.installed[k] < s.nextId
    && (Less(k.0, k.1) ==> (k.1, k.0) in s.installed && s.installed[(k.1, k.0)] == s.installed[k])
  }

  predicate AllMatched(names: set<Name>, s: State) {
    forall k :: k in s.installed ==> k.0 in names && Matched(s, k)
  }

  /** No two connectors share a connection. */
  predicate Unshared(s: State) {
    forall k, l :: k in s.installed && l in s.installed && Less(k.1, k.0) && Less(l.1, l.0) && k != l ==>
      s.installed[k] != s.installed[l]
  }

  predicate Inv(names: set<Name>, s: State) {
    AllPartitioned(names, s) && AllHonest(names, s) && AllMatched(names, s) && Unshared(s)
  }

  lemma StartInv(order: seq<Name>)
    ensures Inv(NamesOf(order), Start(order))
  {
    var names, s := NamesOf(order), Start(order);
    forall r | r in names ensures Partitioned(names, s, r) {
      forall p | p in names && p != r ensures Less(p, r) <==> !Less(r, p) {
        OneSideAccepts(p, r);
      }
    }
  }

  // ----- installing a connection -----

  lemma InstalledOneMore(s: State, s': State, r: Name, p: Name, id: nat)
    requires s'.installed == s.installed[(r, p) := id]
    ensures Installed(s', r) == Installed(s, r) + {p}
    ensures forall q :: q != r ==> Installed(s', q) == Installed(s, q)
  {
    assert (r, p) in s'.installed;
  }

  /** A pending peer moves to the installed ones. */
  lemma PendingInstalled(names: set<Name>, s: State, s': State, r: Name, p: Name, id: nat)
    requires AllPartitioned(names, s) && r in names && s'.installed == s.installed[(r, p) := id]
    requires
      || (p in s.accepting[r] && s'.accepting == s.accepting[r := s.accepting[r] - {p}]
        && s'.connecting == s.connecting)
      || (p in s.connecting[r] && s'.connecting == s.connecting[r := s.connecting[r] - {p}]
        && s'.accepting == s.accepting)
    ensures AllPartitioned(names, s')
  {
    hide Less, Installed;
    assert Partitioned(names, s, r);
    InstalledOneMore(s, s', r, p, id);
    OneMoves(Installed(s, r), s.accepting[r], s.connecting[r], p);
    OneMoves(Installed(s, r), s.connecting[r], s.accepting[r], p);
    forall q | q in names && q != r ensures Partitioned(names, s', q) {
      assert Partitioned(names, s, q);
    }
  }

  lemma OneMoves(done: set<Name>, pending: set<Name>, other: set<Name>, p: Name)
    requires done !! pending && done !! other && pending !! other
    ensures p in pending ==>
      (done + {p}) + (pending - {p}) + other == done + pending + other
      && done + {p} !! pending - {p} && done + {p} !! other && pending - {p} !! other
  {
  }

  /** A connector installs a connection nobody has. */
  lemma ConnectorInstalls(names: set<Name>, s: State, s': State, r: Name, p: Name)
    requires AllMatched(names, s) && Unshared(s) && r in names && Less(p, r) && (r, p) !in s.installed
    requires s'.installed == s.installed[(r, p) := s.nextId] && s'.nextId == s.nextId + 1
    ensures AllMatched(names, s') && Unshared(s')
  {
    hide Less;
    OneSideAcceptsHere(p, r);
    forall k | k in s'.installed ensures k.0 in names && Matched(s', k) {
      if k != (r, p) { assert Matched(s, k); }
    }
    forall k | k in s.installed ensures s.installed[k] < s.nextId {
      assert Matched(s, k);
    }
  }

  /** An acceptor installs the connection its peer has. */
  lemma AcceptorInstalls(names: set<Name>, s: State, s': State, a: Name, p: Name)
    requires AllMatched(names, s) && Unshared(s) && a in names && Less(a, p) && (p, a) in s.installed
    requires s'.installed == s.installed[(a, p) := s.installed[(p, a)]] && s'.nextId == s.nextId
    ensures AllMatched(names, s') && Unshared(s')
  {
    hide Less;
    OneSideAcceptsHere(a, p);
    assert Matched(s, (p, a));
    forall k | k in s'.installed ensures k.0 in names && Matched(s', k) {
      if k != (a, p) { assert Matched(s, k); }
    }
  }

  lemma OneSideAcceptsHere(a: Name, b: Name)
    requires Less(a, b)
    ensures !Less(b, a) && a != b
  {
    NotBelowItself(a);
    if a != b { OneSideAccepts(a, b); }
  }

  // ----- one outbound connection -----

  function Arrives(s: State, p: Name, w: Attempt): State
    requires p in s.backlog
  {
    s.(backlog := s.backlog[p := s.backlog[p] + [w]], nextId := s.nextId + 1)
  }

  /** A handshake that failed after `k` bytes reached the listener. */
  function ConnectCut(s: State, r: Name, p: Name, k: nat): State
    requires p in s.backlog && Hello(r).Some? && k <= |Hello(r).value|
  {
    Arrives(s, p, Attempt(r, s.nextId, Hello(r).value[..k]))
  }

  function ConnectDone(s: State, r: Name, p: Name): State
    requires p in s.backlog && r in s.connecting && Hello(r).Some?
  {
    Arrives(s, p, Attempt(r, s.nextId, Hello(r).value)).(
      installed := s.installed[(r, p) := s.nextId],
      connecting := s.connecting[r := s.connecting[r] - {p}])
  }

  lemma InstalledIff(s: State, r: Name, p: Name)
    ensures p in Installed(s, r) <==> (r, p) in s.installed
  {
    if (r, p) in s.installed { assert (r, p).1 in Installed(s, r); }
  }

  lemma PendingPeer(names: set<Name>, s: State, r: Name, p: Name)
    requires Inv(names, s) && r in names && p in s.connecting[r]
    ensures p in names && Less(p, r) && (r, p) !in s.installed
    ensures s.accepting.Keys == names && s.connecting.Keys == names && s.backlog.Keys == names
  {
    hide Less;
    assert Partitioned(names, s, r);
    InstalledIff(s, r, p);
  }

  lemma ConnectCutKeepsInv(names: set<Name>, s: State, r: Name, p: Name, k: nat)
    requires Inv(names, s) && r in names && p in s.connecting[r] && Hello(r).Some? && k < |Hello(r).value|
    ensures p in names && Inv(names, ConnectCut(s, r, p, k))
  {
    hide Less, Hello, Unshared;
    PendingPeer(names, s, r, p);
    var s' := ConnectCut(s, r, p, k);
    forall q | q in names ensures Partitioned(names, s', q) {
      assert Partitioned(names, s, q) && Installed(s', q) == Installed(s, q);
    }
    forall a, i | a in names && 0 <= i < |s'.backlog[a]| ensures Honest(names, s', a, s'.backlog[a][i]) {
      if i < |s.backlog[a]| { assert Honest(names, s, a, s.backlog[a][i]); }
    }
    assert AllMatched(names, s') by {
      forall l | l in s'.installed ensures Matched(s', l) { assert Matched(s, l); }
    }
    assert Unshared(s') by { UnsharedByConnections(s, s'); }
  }

  lemma UnsharedByConnections(s: State, s': State)
    requires Unshared(s) && s'.installed == s.installed
    ensures Unshared(s')
  {
  }

  lemma ConnectDoneKeepsInv(names: set<Name>, s: State, r: Name, p: Name)
    requires Inv(names, s) && r in names && p in s.connecting[r] && Hello(r).Some?
    ensures p in names && Inv(names, ConnectDone(s, r, p))
  {
    hide Less, Hello, Unshared, AllMatched, AllPartitioned, AllHonest;
    PendingPeer(names, s, r, p);
    var s' := ConnectDone(s, r, p);
    ConnectorInstalls(names, s, s', r, p);
    PendingInstalled(names, s, s', r, p, s.nextId);
    ArrivesHonestly(names, s, r, p);
  }

  lemma ArrivesHonestly(names: set<Name>, s: State, r: Name, p: Name)
    requires AllHonest(names, s) && r in names && p in names && r in s.connecting && Hello(r).Some?
    requires Less(p, r) && (r, p) !in s.installed
    ensures AllHonest(names, ConnectDone(s, r, p))
  {
    hide Less, Hello;
    var s' := ConnectDone(s, r, p);
    forall a, i | a in names && 0 <= i < |s'.backlog[a]| ensures Honest(names, s', a, s'.backlog[a][i]) {
      if i < |s.backlog[a]| { assert Honest(names, s, a, s.backlog[a][i]); }
    }
  }

  // ----- one accepted connection -----

  /** What the accepting side makes of the first waiting connection. `late`: the handshake did not
      arrive within the read timeout. */
  function Accepted(names: set<Name>, s: State, a: Name, late: bool): (peer: Option<Name>)
    requires a in s.backlog && s.backlog[a] != [] && a in s.accepting
  {
    var hello := ReadHello(s.backlog[a][0].bytes, names);
    if !late && hello.Some? && hello.value.name in s.accepting[a] then Some(hello.value.name) else None
  }

  function AcceptTaken(s: State, a: Name): State
    requires a in s.backlog && s.backlog[a] != []
  {
    s.(backlog := s.backlog[a := s.backlog[a][1..]])
  }

  function AcceptDone(s: State, a: Name, p: Name): State
    requires a in s.backlog && s.backlog[a] != [] && a in s.accepting
  {
    AcceptTaken(s, a).(installed := s.installed[(a, p) := s.backlog[a][0].id],
                       accepting := s.accepting[a := s.accepting[a] - {p}])
  }

  lemma AcceptTakenKeepsInv(names: set<Name>, s: State, a: Name)
    requires Inv(names, s) && a in names && s.backlog[a] != []
    ensures Inv(names, AcceptTaken(s, a))
  {
    hide Less, Hello, Unshared;
    var s' := AcceptTaken(s, a);
    forall q | q in names ensures Partitioned(names, s', q) {
      assert Partitioned(names, s, q) && Installed(s', q) == Installed(s, q);
    }
    forall b, i | b in names && 0 <= i < |s'.backlog[b]| ensures Honest(names, s', b, s'.backlog[b][i]) {
      assert Honest(names, s, b, s.backlog[b][if a == b then i + 1 else i]);
    }
    assert AllMatched(names, s') by {
      forall l | l in s'.installed ensures Matched(s', l) { assert Matched(s, l); }
    }
    assert Unshared(s') by { UnsharedByConnections(s, s'); }
  }

  /** A connection recognised as `p`'s is `p`'s, and `p` has installed it. */
  lemma AcceptedIsOwner(names: set<Name>, s: State, a: Name, w: Attempt)
    requires Honest(names, s, a, w) && ReadHello(w.bytes, names).Some?
    ensures w.from == ReadHello(w.bytes, names).value.name && (w.from, a) in s.installed
      && s.installed[(w.from, a)] == w.id
  {
    hide ReadFrom, FrameOf;
    var hello := Hello(w.from).value;
    if w.bytes != hello {
      TornFrameIsNotRead(w.from, |w.bytes|, NAME_CAP);
    } else {
      ReadUndoesFrame(w.from, [], NAME_CAP);
      assert hello + [] == hello;
    }
  }

  lemma AcceptDoneKeepsInv(names: set<Name>, s: State, a: Name, p: Name)
    requires Inv(names, s) && a in names && s.backlog[a] != [] && Accepted(names, s, a, false) == Some(p)
    ensures Inv(names, AcceptDone(s, a, p))
  {
    hide Partitioned, Matched, Unshared, Less, ReadHello;
    var w := s.backlog[a][0];
    assert Honest(names, s, a, w);
    AcceptedIsOwner(names, s, a, w);
    AcceptTakenKeepsInv(names, s, a);
    AcceptInstallKeepsInv(names, AcceptTaken(s, a), a, p);
  }

  lemma AcceptInstallKeepsInv(names: set<Name>, s: State, a: Name, p: Name)
    requires Inv(names, s) && a in names && p in s.accepting[a] && (p, a) in s.installed
    ensures Inv(names, s.(installed := s.installed[(a, p) := s.installed[(p, a)]],
                          accepting := s.accepting[a := s.accepting[a] - {p}]))
  {
    hide Less, Unshared, AllMatched, AllHonest;
    var s' := s.(installed := s.installed[(a, p) := s.installed[(p, a)]],
                 accepting := s.accepting[a := s.accepting[a] - {p}]);
    assert Partitioned(names, s, a);
    AcceptorInstalls(names, s, s', a, p);
    assert AllPartitioned(names, s') by { PendingInstalled(names, s, s', a, p, s.installed[(p, a)]); }
    StaysHonest(names, s, s', a, p);
  }

  lemma StaysHonest(names: set<Name>, s: State, s': State, a: Name, p: Name)
    requires AllHonest(names, s) && Less(a, p) && s'.backlog == s.backlog
    requires s'.installed.Keys == s.installed.Keys + {(a, p)}
    requires forall k :: k in s.installed && k != (a, p) ==> s'.installed[k] == s.installed[k]
    ensures AllHonest(names, s')
  {
    hide Less, Hello;
    OneSideAcceptsHere(a, p);
    forall b, i | b in names && 0 <= i < |s'.backlog[b]| ensures Honest(names, s', b, s'.backlog[b][i]) {
      assert Honest(names, s, b, s.backlog[b][i]);
    }
  }

  // ----- what it means to be done -----

  predicate Done(s: State) {
    (forall r :: r in s.accepting ==> s.accepting[r] == {}) && (forall r :: r in s.connecting ==> s.connecting[r] == {})
  }

  /** Once nothing is pending, any two runners hold the two ends of one connection, and no
      connection serves two pairs. */
  lemma MeshIsComplete(names: set<Name>, s: State, a: Name, b: Name)
    requires Inv(names, s) && Done(s) && a in names && b in names && a != b
    ensures (a, b) in s.installed && (b, a) in s.installed && s.installed[(a, b)] == s.installed[(b, a)]
    ensures forall c, d :: (c, d) in s.installed && s.installed[(c, d)] == s.installed[(a, b)] ==> {c, d} == {a, b}
  {
    hide Inv;
    var k := ConnectorSide(names, s, a, b);
    forall c, d | (c, d) in s.installed && s.installed[(c, d)] == s.installed[(a, b)] ensures {c, d} == {a, b} {
      InstalledIsPeer(names, s, c, d);
      var l := ConnectorSide(names, s, c, d);
      IdsIdentify(names, s, k, l);
    }
  }

  lemma InstalledIsPeer(names: set<Name>, s: State, r: Name, p: Name)
    requires Inv(names, s) && (r, p) in s.installed
    ensures r in names && p in names && r != p
  {
    hide Less, Unshared, Matched, AllHonest;
    InstalledIff(s, r, p);
    assert Partitioned(names, s, r);
  }

  lemma IdsIdentify(names: set<Name>, s: State, k: Pair, l: Pair)
    requires Inv(names, s) && k in s.installed && l in s.installed && Less(k.1, k.0) && Less(l.1, l.0)
    requires s.installed[k] == s.installed[l]
    ensures k == l
  {
  }

  /** The connector's entry of a pair; the acceptor's has the same connection. */
  lemma ConnectorSide(names: set<Name>, s: State, a: Name, b: Name) returns (k: Pair)
    requires Inv(names, s) && Done(s) && a in names && b in names && a != b
    ensures k in s.installed && Less(k.1, k.0) && (k == (a, b) || k == (b, a))
    ensures (a, b) in s.installed && (b, a) in s.installed
      && s.installed[(a, b)] == s.installed[k] == s.installed[(b, a)]
  {
    hide Less, Unshared;
    IsInstalled(names, s, a, b);
    IsInstalled(names, s, b, a);
    OneSideAccepts(a, b);
    assert Matched(s, (a, b)) && Matched(s, (b, a));
    k := if Less(a, b) then (b, a) else (a, b);
  }

  lemma IsInstalled(names: set<Name>, s: State, a: Name, b: Name)
    requires Inv(names, s) && Done(s) && a in names && b in names && a != b
    ensures (a, b) in s.installed
  {
    hide Less, Unshared;
    assert Partitioned(names, s, a);
    assert b in Installed(s, a);
  }

  /** At any time, and after giving up on the rest: what an acceptor installed, its peer installed. */
  lemma AcceptorsAreNeverAlone(names: set<Name>, s: State, a: Name, b: Name)
    requires Inv(names, s) && (a, b) in s.installed && Less(a, b)
    ensures (b, a) in s.installed && s.installed[(b, a)] == s.installed[(a, b)]
  {
    assert Matched(s, (a, b));
  }

  // ----- the loop of `start`, all runners interleaved -----

  datatype Outcome = Refused | CutAfter(bytes: nat) | Delivered

  datatype Step = Connect(r: Name, p: Name, outcome: Outcome) | Accept(r: Name, late: bool)

  datatype Config = Config(order: seq<Name>, base: nat, hosts: map<Name, set<Name>>) {
    function Names(): set<Name> { NamesOf(order) }

    /** A runner without a port does not start, and cannot be connected to. */
    ghost predicate HasPort(r: Name) { exists i: nat :: i < |order| && order[i] == r && PortOf(base, i).Some? }

    /** Can `r` ever hand its name to `p`? */
    ghost predicate CanConnect(r: Name, p: Name) {
      HasPort(r) && HasPort(p) && r in hosts && p in hosts[r] && Hello(r).Some?
    }
  }

  /** Below the last port; the index is cast to 16 bits. */
  ghost predicate ListensBelow65536(c: Config, r: Name) {
    exists i: nat :: i < |c.order| && c.order[i] == r && c.base + 96 + i % 65_536 < 65_536
  }

  /** A runner can hand its name to a peer exactly when both have a port, it knows the peer's host, and
      its name has at most 256 bytes. */
  lemma CanConnectExactlyWhen(c: Config, r: Name, p: Name)
    ensures c.CanConnect(r, p) <==>
      ListensBelow65536(c, r) && ListensBelow65536(c, p) && r in c.hosts && p in c.hosts[r] && |r| <= 256
  {
    forall i: nat ensures PortOf(c.base, i).Some? <==> c.base + 96 + i % 65_536 < 65_536 { }
  }

  /** One outbound connection, or one turn of an accept loop. */
  ghost function After(c: Config, s: State, step: Step): State {
    match step
    case Connect(r, p, outcome) =>
      if r !in s.connecting || p !in s.connecting[r] || p !in s.backlog || !c.CanConnect(r, p) then s
      else (
        match outcome
        case Refused => s
        case CutAfter(k) => if k < |Hello(r).value| then ConnectCut(s, r, p, k) else s
        case Delivered => ConnectDone(s, r, p)
      )
    case Accept(a, late) =>
      if a !in s.accepting || s.accepting[a] == {} || a !in s.backlog || s.backlog[a] == [] then s
      else
        match Accepted(c.Names(), s, a, late)
        case None => AcceptTaken(s, a)
        case Some(p) => AcceptDone(s, a, p)
  }

  /** What an outbound connection does: a refused one nothing; one that fails after `k` bytes leaves
      these at the end of the listener's queue; a delivered one leaves the whole handshake there and
      installs the peer, which is no longer pending. */
  lemma OutboundExactly(c: Config, s: State, r: Name, p: Name, outcome: Outcome)
    requires r in s.connecting && p in s.connecting[r] && p in s.backlog && c.CanConnect(r, p)
    ensures
      var s' := After(c, s, Connect(r, p, outcome));
      && s'.accepting == s.accepting && p in s'.backlog
      && (forall q :: q in s.backlog && q != p ==> q in s'.backlog && s'.backlog[q] == s.backlog[q])
      && match outcome
         case Refused => s' == s
         case CutAfter(k) =>
           && s'.installed == s.installed && s'.connecting == s.connecting
           && (k < 4 + |r| ==> s'.backlog[p] == s.backlog[p] + [Attempt(r, s.nextId, FrameOf(r)[..k])])
         case Delivered =>
           && s'.installed == s.installed[(r, p) := s.nextId]
           && s'.connecting == s.connecting[r := s.connecting[r] - {p}]
           && s'.backlog[p] == s.backlog[p] + [Attempt(r, s.nextId, FrameOf(r))]
  {
  }

  /** What one turn of an accept loop does: the first connection in the queue is taken off it, and
      installed if it carries the whole handshake of a pending peer in time; else it is dropped. */
  lemma InboundExactly(c: Config, s: State, a: Name, late: bool)
    requires Inv(c.Names(), s) && a in s.backlog && s.backlog[a] != [] && a in s.accepting && s.accepting[a] != {}
    ensures
      var s', w := After(c, s, Accept(a, late)), s.backlog[a][0];
      && s'.connecting == s.connecting && s'.backlog == s.backlog[a := s.backlog[a][1..]]
      && if !late && w.from in s.accepting[a] && w.bytes == FrameOf(w.from) then
           && s'.installed == s.installed[(a, w.from) := w.id]
           && s'.accepting == s.accepting[a := s.accepting[a] - {w.from}]
         else s'.installed == s.installed && s'.accepting == s.accepting
  {
    hide FrameOf, ReadHello;
    KeysOf(c.Names(), s);
    AcceptedIffWhole(c.Names(), s, a, late);
  }

  ghost function AfterAll(c: Config, s: State, steps: seq<Step>): State
    decreases |steps|
  {
    if steps == [] then s else AfterAll(c, After(c, s, steps[0]), steps[1..])
  }

  lemma StepKeepsInv(c: Config, s: State, step: Step)
    requires Inv(c.Names(), s)
    ensures Inv(c.Names(), After(c, s, step))
  {
    hide Partitioned, Honest, Matched, Unshared, Hello, ReadHello;
    match step {
      case Connect(r, p, outcome) =>
        if r in s.connecting && p in s.connecting[r] && p in s.backlog && c.CanConnect(r, p) {
          match outcome {
            case Refused =>
            case CutAfter(k) => if k < |Hello(r).value| { ConnectCutKeepsInv(c.Names(), s, r, p, k); }
            case Delivered => ConnectDoneKeepsInv(c.Names(), s, r, p);
          }
        }
      case Accept(a, late) =>
        if a in s.accepting && s.accepting[a] != {} && a in s.backlog && s.backlog[a] != [] {
          match Accepted(c.Names(), s, a, late) {
            case None => AcceptTakenKeepsInv(c.Names(), s, a);
            case Some(p) => AcceptDoneKeepsInv(c.Names(), s, a, p);
          }
        }
    }
  }

  lemma {:induction false} StepsKeepInv(c: Config, s: State, steps: seq<Step>)
    requires Inv(c.Names(), s)
    ensures Inv(c.Names(), AfterAll(c, s, steps))
    decreases |steps|
  {
    hide Inv;
    if steps != [] {
      StepKeepsInv(c, s, steps[0]);
      StepsKeepInv(c, After(c, s, steps[0]), steps[1..]);
    }
  }

  lemma {:induction false} AfterBoth(c: Config, s: State, first: seq<Step>, second: seq<Step>)
    ensures AfterAll(c, s, first + second) == AfterAll(c, AfterAll(c, s, first), second)
    decreases |first|
  {
    hide After;
    if first == [] {
      assert first + second == second;
    } else {
      assert (first + second)[1..] == first[1..] + second;
      AfterBoth(c, After(c, s, first[0]), first[1..], second);
    }
  }

  // ----- connectors left alone -----

  /** The whole handshake of `p`. */
  predicate Whole(w: Attempt, p: Name) { w.from == p && Hello(p) == Some(w.bytes) }

  /** The whole handshake of `p` still waits at the listener of `a`. */
  predicate Waits(s: State, a: Name, p: Name) {
    a in s.backlog && exists i :: 0 <= i < |s.backlog[a]| && Whole(s.backlog[a][i], p)
  }

  /** `p` takes `a` for connected, `a` still has to accept `p`. */
  predicate HalfOpen(s: State, a: Name, p: Name) {
    a in s.accepting && p in s.accepting[a] && (p, a) in s.installed
  }

  predicate Lost(s: State, a: Name, p: Name) { HalfOpen(s, a, p) && !Waits(s, a, p) }

  /** Installed on the connector's side only: that is being half open. */
  lemma OneSidedIsHalfOpen(names: set<Name>, s: State, a: Name, p: Name)
    requires Inv(names, s) && (p, a) in s.installed && (a, p) !in s.installed
    ensures HalfOpen(s, a, p) && Less(a, p)
  {
    hide Less, Unshared, Honest;
    InstalledIsPeer(names, s, p, a);
    OneSideAccepts(a, p);
    assert Matched(s, (p, a)) && Partitioned(names, s, a);
    InstalledIff(s, a, p);
  }

  lemma HalfOpenIsOneSided(names: set<Name>, s: State, a: Name, p: Name)
    requires Inv(names, s) && HalfOpen(s, a, p)
    ensures a in names && p in names && (a, p) !in s.installed && Less(a, p) && a !in s.connecting[p]
  {
    hide Less, Unshared, Honest, Matched;
    InstalledIsPeer(names, s, p, a);
    assert Partitioned(names, s, a) && Partitioned(names, s, p);
    InstalledIff(s, a, p);
    InstalledIff(s, p, a);
  }

  /** Accepting recognises exactly whole handshakes of pending peers that are not late. */
  lemma AcceptedIffWhole(names: set<Name>, s: State, a: Name, late: bool)
    requires Inv(names, s) && a in names && s.backlog[a] != []
    ensures
      var w := s.backlog[a][0];
      Accepted(names, s, a, late)
        == if !late && Whole(w, w.from) && w.from in s.accepting[a] then Some(w.from) else None
  {
    hide Less, Partitioned, Matched, Unshared, ReadFrom, FrameOf;
    var w := s.backlog[a][0];
    assert Honest(names, s, a, w);
    if Whole(w, w.from) {
      ReadUndoesFrame(w.from, [], NAME_CAP);
      assert w.bytes + [] == w.bytes;
    } else {
      TornFrameIsNotRead(w.from, |w.bytes|, NAME_CAP);
    }
  }

  /** No step brings a lost handshake back. */
  lemma LostStaysLost(c: Config, s: State, step: Step, a: Name, p: Name)
    requires Inv(c.Names(), s) && Lost(s, a, p)
    ensures Lost(After(c, s, step), a, p)
  {
    hide Inv, Hello, Less;
    HalfOpenIsOneSided(c.Names(), s, a, p);
    match step {
      case Connect(r, q, outcome) =>
        hide Accepted;
      case Accept(b, late) =>
        KeysOf(c.Names(), s);
        if b in c.Names() && s.backlog[b] != [] {
          AcceptedIffWhole(c.Names(), s, b, late);
          hide Accepted;
        }
    }
  }

  lemma KeysOf(names: set<Name>, s: State)
    requires Inv(names, s)
    ensures s.accepting.Keys == names && s.connecting.Keys == names && s.backlog.Keys == names
  {
  }

  lemma {:induction false} LostForever(c: Config, s: State, steps: seq<Step>, a: Name, p: Name)
    requires Inv(c.Names(), s) && Lost(s, a, p)
    ensures Lost(AfterAll(c, s, steps), a, p) && !Done(AfterAll(c, s, steps))
    decreases |steps|
  {
    hide Inv, After;
    if steps != [] {
      StepKeepsInv(c, s, steps[0]);
      LostStaysLost(c, s, steps[0], a, p);
      LostForever(c, After(c, s, steps[0]), steps[1..], a, p);
    }
  }

  /** It happens: a handshake that is read too late is dropped, and its sender does not try again. */
  lemma LateHandshakeIsLost(a: Name, p: Name)
    requires Less(a, p) && Hello(p).Some?
    ensures
      var c := Config([a, p], 0, map[p := {a}]);
      var s := AfterAll(c, Start(c.order), [Connect(p, a, Delivered), Accept(a, true)]);
      (p, a) in s.installed && (a, p) !in s.installed && Lost(s, a, p)
  {
    hide Less, Hello, PortOf, ReadHello, Start;
    var c := Config([a, p], 0, map[p := {a}]);
    BothHavePorts(c, a, p);
    TwoRunnersStart(a, p);
    var s0 := Start(c.order);
    var s1, s2 := ConnectDone(s0, p, a), AcceptTaken(ConnectDone(s0, p, a), a);
    assert After(c, s0, Connect(p, a, Delivered)) == s1 && After(c, s1, Accept(a, true)) == s2;
    hide After;
    var steps := [Connect(p, a, Delivered), Accept(a, true)];
    assert AfterAll(c, s0, steps) == AfterAll(c, s1, steps[1..]) == AfterAll(c, s2, steps[1..][1..]) == s2;
    assert s2.backlog[a] == [];
  }

  lemma TwoRunnersStart(a: Name, p: Name)
    requires Less(a, p)
    ensures
      var s := Start([a, p]);
      && a != p && a in s.accepting && p in s.accepting[a] && p in s.connecting && a in s.connecting[p]
      && a in s.backlog && s.backlog[a] == [] && s.installed == map[]
  {
    hide Less;
    OneSideAcceptsHere(a, p);
    assert [a, p][0] == a && [a, p][1] == p;
  }

  lemma BothHavePorts(c: Config, a: Name, p: Name)
    requires c.order == [a, p] && c.base == 0
    ensures c.HasPort(a) && c.HasPort(p)
  {
    assert PortOf(0, 0).Some? && PortOf(0, 1).Some?;
    assert c.order[0] == a && c.order[1] == p;
  }

  // ----- what can still be completed -----

  lemma StepKeepsInstalled(c: Config, s: State, step: Step)
    ensures s.installed.Keys <= After(c, s, step).installed.Keys
  {
  }

  /** Everything pending can still happen: a connector can reach its peer, and no handshake is lost. */
  ghost predicate Repairable(c: Config, s: State) {
    && (forall r, p :: r in s.connecting && p in s.connecting[r] ==> c.CanConnect(r, p))
    && (forall a, p :: HalfOpen(s, a, p) ==> Waits(s, a, p))
  }

  lemma AcceptKeepsRepairable(c: Config, s: State, a: Name)
    requires Inv(c.Names(), s) && Repairable(c, s)
    ensures Repairable(c, After(c, s, Accept(a, false)))
  {
    hide Inv, Hello, Less;
    KeysOf(c.Names(), s);
    if a in c.Names() && s.backlog[a] != [] && s.accepting[a] != {} {
      AcceptedIffWhole(c.Names(), s, a, false);
      hide Accepted;
      var s' := After(c, s, Accept(a, false));
      forall b, p | HalfOpen(s', b, p) ensures Waits(s', b, p) {
        assert HalfOpen(s, b, p) || (p, b) !in s.installed;
        if HalfOpen(s, b, p) {
          var i :| 0 <= i < |s.backlog[b]| && Whole(s.backlog[b][i], p);
          if b == a {
            assert s'.backlog[b] == s.backlog[b][1..];
            assert i > 0;
            assert Whole(s'.backlog[b][i - 1], p);
          } else {
            assert Whole(s'.backlog[b][i], p);
          }
        } else {
          NewlyAccepted(c, s, a, b, p);
        }
      }
    }
  }

  /** Accepting makes no pair half open: what is newly installed is on the acceptor's side. */
  lemma NewlyAccepted(c: Config, s: State, a: Name, b: Name, p: Name)
    requires Inv(c.Names(), s) && (p, b) !in s.installed && b in s.accepting && p in s.accepting[b]
    ensures (p, b) !in After(c, s, Accept(a, false)).installed
  {
    hide Less, Unshared, Matched, Honest;
    KeysOf(c.Names(), s);
    if a in c.Names() && s.backlog[a] != [] && s.accepting[a] != {} {
      assert Partitioned(c.Names(), s, a) && Partitioned(c.Names(), s, b);
      AcceptedIffWhole(c.Names(), s, a, false);
      hide Accepted;
      if a == p && b in s.accepting[p] { OneSideAcceptsHere(b, p); }
    }
  }

  lemma ConnectKeepsRepairable(c: Config, s: State, r: Name, p: Name)
    requires Inv(c.Names(), s) && Repairable(c, s) && r in s.connecting && p in s.connecting[r]
    ensures
      var s' := After(c, s, Connect(r, p, Delivered));
      Repairable(c, s') && (r, p) in s'.installed && (r, p) !in s.installed
  {
    hide Inv, Hello, Less;
    KeysOf(c.Names(), s);
    PendingPeer(c.Names(), s, r, p);
    var s' := After(c, s, Connect(r, p, Delivered));
    assert s' == ConnectDone(s, r, p);
    forall b, q | HalfOpen(s', b, q) ensures Waits(s', b, q) {
      if (q, b) == (r, p) {
        assert Whole(s'.backlog[p][|s.backlog[p]|], r);
      } else {
        assert HalfOpen(s, b, q);
        var i :| 0 <= i < |s.backlog[b]| && Whole(s.backlog[b][i], q);
        assert s'.backlog[b][i] == s.backlog[b][i];
      }
    }
  }

  /** While a whole handshake waits, accepting in turn reaches it. */
  lemma {:induction false} AcceptUntil(c: Config, s: State, a: Name, p: Name) returns (steps: seq<Step>)
    requires Inv(c.Names(), s) && HalfOpen(s, a, p) && Waits(s, a, p)
    ensures
      var s' := AfterAll(c, s, steps);
      (a, p) in s'.installed && s.installed.Keys <= s'.installed.Keys && (Repairable(c, s) ==> Repairable(c, s'))
    decreases if a in s.backlog then |s.backlog[a]| else 0
  {
    hide Inv, Repairable, Hello;
    HalfOpenIsOneSided(c.Names(), s, a, p);
    KeysOf(c.Names(), s);
    AcceptedIffWhole(c.Names(), s, a, false);
    hide Accepted;
    var step := Accept(a, false);
    var s' := After(c, s, step);
    StepKeepsInv(c, s, step);
    StepKeepsInstalled(c, s, step);
    if Repairable(c, s) { AcceptKeepsRepairable(c, s, a); }
    if Whole(s.backlog[a][0], p) {
      steps := [step];
      assert steps[1..] == [] && AfterAll(c, s', []) == s';
    } else {
      var i :| 0 <= i < |s.backlog[a]| && Whole(s.backlog[a][i], p);
      assert s'.backlog[a][i - 1] == s.backlog[a][i];
      var rest := AcceptUntil(c, s', a, p);
      steps := [step] + rest;
      assert steps[1..] == rest;
    }
  }

  /** A connector left alone can be joined exactly while its whole handshake waits at the acceptor. */
  lemma JoinableExactlyWhileWaiting(c: Config, s: State, a: Name, p: Name)
    requires Inv(c.Names(), s) && (p, a) in s.installed && (a, p) !in s.installed
    ensures (exists steps :: (a, p) in AfterAll(c, s, steps).installed) <==> Waits(s, a, p)
  {
    hide Inv;
    OneSidedIsHalfOpen(c.Names(), s, a, p);
    if Waits(s, a, p) {
      var steps := AcceptUntil(c, s, a, p);
    } else if steps :| (a, p) in AfterAll(c, s, steps).installed {
      LostForever(c, s, steps, a, p);
      StepsKeepInv(c, s, steps);
      HalfOpenIsOneSided(c.Names(), AfterAll(c, s, steps), a, p);
    }
  }

  function Missing(names: set<Name>, s: State): set<Pair> {
    (set a, b | a in names && b in names :: (a, b)) - s.installed.Keys
  }

  lemma {:induction false} CompletingSchedule(c: Config, s: State) returns (steps: seq<Step>)
    requires Inv(c.Names(), s) && Repairable(c, s)
    ensures Done(AfterAll(c, s, steps))
    decreases Missing(c.Names(), s)
  {
    hide Inv, Repairable;
    KeysOf(c.Names(), s);
    var more: seq<Step>;
    if r, p :| r in s.connecting && p in s.connecting[r] {
      PendingPeer(c.Names(), s, r, p);
      ConnectKeepsRepairable(c, s, r, p);
      var step := Connect(r, p, Delivered);
      StepKeepsInstalled(c, s, step);
      more := [step];
      assert more[1..] == [] && AfterAll(c, s, more) == After(c, s, step);
      assert (r, p) in Missing(c.Names(), s);
    } else if a, p :| a in s.accepting && p in s.accepting[a] {
      AllConnected(c, s, a, p);
      HalfOpenIsOneSided(c.Names(), s, a, p);
      more := AcceptUntil(c, s, a, p);
      assert (a, p) in Missing(c.Names(), s);
    } else {
      return [];
    }
    StepsKeepInv(c, s, more);
    var rest := CompletingSchedule(c, AfterAll(c, s, more));
    AfterBoth(c, s, more, rest);
    steps := more + rest;
  }

  lemma AllConnected(c: Config, s: State, a: Name, p: Name)
    requires Inv(c.Names(), s) && Repairable(c, s) && a in s.accepting && p in s.accepting[a]
    requires forall r, q :: r in s.connecting ==> q !in s.connecting[r]
    ensures HalfOpen(s, a, p) && Waits(s, a, p)
  {
    hide Less, Unshared, Matched, Honest;
    assert Partitioned(c.Names(), s, a) && Partitioned(c.Names(), s, p);
    OneSideAcceptsHere(a, p);
    InstalledIff(s, p, a);
  }

  lemma StuckConnector(c: Config, s: State, step: Step, r: Name, p: Name)
    requires r in s.connecting && p in s.connecting[r] && !c.CanConnect(r, p)
    ensures var s' := After(c, s, step); r in s'.connecting && p in s'.connecting[r]
  {
  }

  lemma {:induction false} StuckForever(c: Config, s: State, steps: seq<Step>, r: Name, p: Name)
    requires r in s.connecting && p in s.connecting[r] && !c.CanConnect(r, p)
    ensures !Done(AfterAll(c, s, steps))
    decreases |steps|
  {
    hide After;
    if steps != [] {
      StuckConnector(c, s, steps[0], r, p);
      StuckForever(c, After(c, s, steps[0]), steps[1..], r, p);
    }
  }

  /** From any point of any start-up, some schedule completes the mesh exactly when every pending
      connector can reach its peer and no handshake has been lost. */
  lemma MeshCanCompleteExactlyWhenRepairable(c: Config, s: State)
    requires Inv(c.Names(), s)
    ensures (exists steps :: Done(AfterAll(c, s, steps))) <==> Repairable(c, s)
  {
    hide Inv, After, AfterAll, Done;
    if Repairable(c, s) {
      var steps := CompletingSchedule(c, s);
    }
    if steps :| Done(AfterAll(c, s, steps)) {
      forall r, p | r in s.connecting && p in s.connecting[r] ensures c.CanConnect(r, p) {
        if !c.CanConnect(r, p) { StuckForever(c, s, steps, r, p); }
      }
      forall a, p | HalfOpen(s, a, p) ensures Waits(s, a, p) {
        if Lost(s, a, p) { LostForever(c, s, steps, a, p); }
      }
    }
  }

  // ----- the loop itself -----

  class Startup {
    const config: Config
    var state: State

    ghost predicate Valid() reads this { Distinct(config.order) && Inv(config.Names(), state) }

    constructor (config: Config)
      requires Distinct(config.order)
      ensures Valid() && this.config == config && state == Start(config.order)
    {
      this.config, state := config, Start(config.order);
      StartInv(config.order);
    }

    /** `position`: where a runner stands in the configured order. */
    method Position(p: Name) returns (index: Option<nat>)
      ensures index.None? <==> p !in config.order
      ensures index.Some? ==>
        index.value < |config.order| && config.order[index.value] == p && p !in config.order[..index.value]
    {
      for i := 0 to |config.order|
        invariant p !in config.order[..i]
      {
        if config.order[i] == p {
          return Some(i);
        }
      }
      return None;
    }

    /** One outbound connection of `r`, if it still has to connect to `p`. */
    method TryConnect(r: Name, p: Name, outcome: Outcome)
      requires Valid()
      modifies this
      ensures Valid() && state == After(config, old(state), Connect(r, p, outcome))
    {
      hide Inv, Hello, PortOf, ConnectCut, ConnectDone;
      StepKeepsInv(config, state, Connect(r, p, outcome));
      KeysOf(config.Names(), state);
      if r !in state.connecting || p !in state.connecting[r] || p !in state.backlog {
        return;
      }
      var own := Position(r);
      var index := Position(p);
      if own == None || PortOf(config.base, own.value) == None || index == None
        || PortOf(config.base, index.value) == None {
        return;
      }
      if r !in config.hosts || p !in config.hosts[r] || Hello(r) == None {
        return;
      }
      match outcome {
        case Refused =>
        case CutAfter(k) =>
          if k < |Hello(r).value| {
            state := ConnectCut(state, r, p, k);
          }
        case Delivered =>
          state := ConnectDone(state, r, p);
      }
    }

    /** One turn of the accept loop of `r`. */
    method TryAccept(r: Name, late: bool)
      requires Valid()
      modifies this
      ensures Valid() && state == After(config, old(state), Accept(r, late))
    {
      hide Inv, AcceptTaken, AcceptDone;
      StepKeepsInv(config, state, Accept(r, late));
      if r !in state.accepting || state.accepting[r] == {} || r !in state.backlog || state.backlog[r] == [] {
        return;
      }
      match Accepted(config.Names(), state, r, late) {
        case None => state := AcceptTaken(state, r);
        case Some(p) => state := AcceptDone(state, r, p);
      }
    }

    /** However the start-ups interleave, every step keeps the invariant; once nothing is pending the
        mesh is complete. */
    method RunSchedule(steps: seq<Step>)
      requires Valid()
      modifies this
      ensures Valid() && state == AfterAll(config, old(state), steps)
      ensures Done(state) ==> forall a, b :: a in config.order && b in config.order && a != b ==>
        && (a, b) in state.installed && (b, a) in state.installed
        && state.installed[(a, b)] == state.installed[(b, a)]
    {
      hide Inv, After;
      for i := 0 to |steps|
        invariant Valid() && AfterAll(config, state, steps[i..]) == AfterAll(config, old(state), steps)
      {
        assert steps[i..][1..] == steps[i + 1..];
        match steps[i]
        case Connect(r, p, outcome) => TryConnect(r, p, outcome);
        case Accept(r, late) => TryAccept(r, late);
      }
      if Done(state) {
        forall a, b | a in config.order && b in config.order && a != b
          ensures (a, b) in state.installed && (b, a) in state.installed
          ensures state.installed[(a, b)] == state.installed[(b, a)]
        {
          MeshIsComplete(config.Names(), state, a, b);
        }
      }
    }
  }
}
