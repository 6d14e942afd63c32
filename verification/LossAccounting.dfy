/** Write and receive counting inside the operate windows of one group, and the loss and volume
    figures derived from it. All boundaries are readings of the writer's clock. */
module LossAccounting {
  import opened Options
  import opened Finite
  import opened Dedupe

  datatype Event =
    | WriteEvent(runner: string, ts: int, sequence: Option<int>, path: Option<string>, leafCount: Option<nat>,
      bytes: Option<int>)
    | ReceiveEvent(runner: string, ts: int, writer: Option<string>, sequence: Option<int>, path: Option<string>)
    | PhaseEvent(runner: string, ts: int, phase: Option<string>)
    | EotSent(runner: string, ts: int)
    | OtherEvent(runner: string, ts: int)

  // ----- windows -----

  datatype Windows = Windows(operateStart: Option<int>, silentStart: Option<int>, eot: map<string, int>) {
    /** End of `writer`'s window: its own end-of-test if logged, else the silent start. */
    function End(writer: string): Option<int> {
      if writer in eot then Some(eot[writer]) else silentStart
    }

    predicate Contains(writer: string, ts: int) {
      operateStart.Some? && End(writer).Some? && operateStart.value <= ts <= End(writer).value
    }
  }

  function Earlier(a: Option<int>, t: int): (r: Option<int>)
    ensures r.Some?
  {
    if a.Some? && a.value <= t then a else Some(t)
  }

  /** `t` is the least timestamp among the events of `g` that satisfy `p`. */
  ghost predicate IsEarliest(g: seq<Event>, p: Event -> bool, t: Option<int>) {
    match t
    case None => forall i :: 0 <= i < |g| ==> !p(g[i])
    case Some(v) =>
      && (exists i :: 0 <= i < |g| && p(g[i]) && g[i].ts == v)
      && forall i :: 0 <= i < |g| && p(g[i]) ==> v <= g[i].ts
  }

  ghost predicate IsLatest(g: seq<Event>, t: Option<int>) {
    match t
    case None => g == []
    case Some(v) => (exists i :: 0 <= i < |g| && g[i].ts == v) && forall i :: 0 <= i < |g| ==> g[i].ts <= v
  }

  predicate IsPhase(e: Event, name: string) { e.PhaseEvent? && e.phase == Some(name) }

  function PhaseNamed(name: string): Event -> bool { (e: Event) => IsPhase(e, name) }

  function EotOf(runner: string): Event -> bool { (e: Event) => e.EotSent? && e.runner == runner }

  function Get(m: map<string, int>, k: string): Option<int> { if k in m then Some(m[k]) else None }

  /** The windows of a group, said directly. */
  ghost predicate AreWindows(g: seq<Event>, w: Windows) {
    && IsEarliest(g, PhaseNamed("operate"), w.operateStart)
    && (if exists e :: e in g && IsPhase(e, "silent")
        then IsEarliest(g, PhaseNamed("silent"), w.silentStart)
        else IsLatest(g, w.silentStart))
    && forall r :: IsEarliest(g, EotOf(r), Get(w.eot, r))
  }

  lemma EarliestStep(g: seq<Event>, p: Event -> bool, t: Option<int>, e: Event)
    requires IsEarliest(g, p, t)
    ensures IsEarliest(g + [e], p, if p(e) then Earlier(t, e.ts) else t)
  {
    var g' := g + [e];
    assert forall i :: 0 <= i < |g| ==> g'[i] == g[i];
    assert g'[|g|] == e;
    if t.Some? {
      var i :| 0 <= i < |g| && p(g[i]) && g[i].ts == t.value;
      assert p(g'[i]) && g'[i].ts == t.value;
    }
  }

  lemma LatestStep(g: seq<Event>, t: Option<int>, e: Event)
    requires IsLatest(g, t)
    ensures IsLatest(g + [e], Some(if t.Some? && t.value >= e.ts then t.value else e.ts))
  {
    var g' := g + [e];
    assert g'[|g|] == e;
    if t.Some? {
      var i :| 0 <= i < |g| && g[i].ts == t.value;
      assert g'[i].ts == t.value;
    }
  }

  /** What a scan of `g` has collected. */
  ghost predicate Scanned(g: seq<Event>, operate: Option<int>, silent: Option<int>, last: Option<int>,
                          eot: map<string, int>) {
    && IsEarliest(g, PhaseNamed("operate"), operate)
    && IsEarliest(g, PhaseNamed("silent"), silent)
    && IsLatest(g, last)
    && forall r :: IsEarliest(g, EotOf(r), Get(eot, r))
  }

  lemma ScanStep(g: seq<Event>, operate: Option<int>, silent: Option<int>, last: Option<int>, eot: map<string, int>,
                 e: Event)
    requires Scanned(g, operate, silent, last, eot)
    ensures Scanned(g + [e],
      if IsPhase(e, "operate") then Earlier(operate, e.ts) else operate,
      if IsPhase(e, "silent") then Earlier(silent, e.ts) else silent,
      Some(if last.Some? && last.value >= e.ts then last.value else e.ts),
      if e.EotSent? then eot[e.runner := Earlier(Get(eot, e.runner), e.ts).value] else eot)
  {
    hide IsEarliest, IsLatest;
    EarliestStep(g, PhaseNamed("operate"), operate, e);
    EarliestStep(g, PhaseNamed("silent"), silent, e);
    LatestStep(g, last, e);
    var eot' := if e.EotSent? then eot[e.runner := Earlier(Get(eot, e.runner), e.ts).value] else eot;
    forall r ensures IsEarliest(g + [e], EotOf(r), Get(eot', r)) {
      EarliestStep(g, EotOf(r), Get(eot, r), e);
    }
  }

  lemma NothingScanned()
    ensures Scanned([], None, None, None, map[])
  {
    forall r ensures IsEarliest([], EotOf(r), Get(map[], r)) { }
  }

  lemma ScannedGivesWindows(g: seq<Event>, operate: Option<int>, silent: Option<int>, last: Option<int>,
                            eot: map<string, int>)
    requires Scanned(g, operate, silent, last, eot)
    ensures AreWindows(g, Windows(operate, if silent.Some? then silent else last, eot))
  {
    assert silent.Some? <==> exists e :: e in g && IsPhase(e, "silent") by {
      if silent.Some? {
        var i :| 0 <= i < |g| && PhaseNamed("silent")(g[i]) && g[i].ts == silent.value;
        assert g[i] in g && IsPhase(g[i], "silent");
      }
    }
    hide IsEarliest, IsLatest;
  }

  /** `_operate_windows`: the minima of three filtered scans, with the latest event as fallback. */
  method OperateWindows(g: seq<Event>) returns (w: Windows)
    ensures AreWindows(g, w)
  {
    hide Scanned;
    var operate: Option<int>, silent: Option<int>, last: Option<int> := None, None, None;
    var eot: map<string, int> := map[];
    NothingScanned();
    for k := 0 to |g|
      invariant Scanned(g[..k], operate, silent, last, eot)
    {
      var e := g[k];
      assert g[..k + 1] == g[..k] + [e];
      ScanStep(g[..k], operate, silent, last, eot, e);
      if IsPhase(e, "operate") {
        operate := Earlier(operate, e.ts);
      }
      if IsPhase(e, "silent") {
        silent := Earlier(silent, e.ts);
      }
      last := Some(if last.Some? && last.value >= e.ts then last.value else e.ts);
      if e.EotSent? {
        eot := eot[e.runner := Earlier(Get(eot, e.runner), e.ts).value];
      }
    }
    assert g[..|g|] == g;
    ScannedGivesWindows(g, operate, silent, last, eot);
    w := Windows(operate, if silent.Some? then silent else last, eot);
  }

  // ----- deliveries: surviving receives joined with their writes -----

  datatype Delivery = Delivery(key: Key, writeTs: int, receiveTs: int, leaves: nat, bytes: Option<int>)

  /** The complete receive rows of a group. */
  function ReceiveRows(g: seq<Event>): seq<Receive> {
    if g == [] then []
    else
      ReceiveRows(g[..|g| - 1]) +
      match g[|g| - 1]
      case ReceiveEvent(runner, ts, Some(writer), Some(n), Some(path)) => [Receive(Key(writer, runner, n, path), ts)]
      case _ => []
  }

  predicate IsWriteOf(e: Event, k: Key) {
    e.WriteEvent? && e.runner == k.writer && e.sequence == Some(k.sequence) && e.path == Some(k.path)
  }

  /** The deliveries of one receive: one per write with its (writer, sequence, path). */
  function WritesOf(g: seq<Event>, r: Receive): seq<Delivery> {
    if g == [] then []
    else
      var e := g[|g| - 1];
      WritesOf(g[..|g| - 1], r) +
      if IsWriteOf(e, r.key)
      then [Delivery(r.key, e.ts, r.ts, if e.leafCount.Some? then e.leafCount.value else 1, e.bytes)]
      else []
  }

  /** Joins the surviving ones among the first `n` receive rows. */
  function Joined(g: seq<Event>, rows: seq<Receive>, n: nat): seq<Delivery>
    requires n <= |rows|
  {
    if n == 0 then []
    else Joined(g, rows, n - 1) + if n - 1 in Survivors(rows) then WritesOf(g, rows[n - 1]) else []
  }

  function Deliveries(g: seq<Event>): seq<Delivery> { Joined(g, ReceiveRows(g), |ReceiveRows(g)|) }

  // ----- counts -----

  function CountWrites(g: seq<Event>, w: Windows): nat {
    if g == [] then 0
    else
      var e := g[|g| - 1];
      CountWrites(g[..|g| - 1], w) +
      if e.WriteEvent? && (w.operateStart.None? || w.Contains(e.runner, e.ts)) then 1 else 0
  }

  /** The deliveries whose write lies in its writer's window; all of them without an operate phase. */
  function InWindow(ds: seq<Delivery>, w: Windows): seq<Delivery> {
    if ds == [] then []
    else
      var d := ds[|ds| - 1];
      InWindow(ds[..|ds| - 1], w) + if w.operateStart.None? || w.Contains(d.key.writer, d.writeTs) then [d] else []
  }

  /** The end of the window of everyone who wrote, as far as there is one. */
  method WindowEnds(g: seq<Event>, ds: seq<Delivery>, w: Windows) returns (ends: map<string, int>)
    ensures forall r :: r in ends ==> w.End(r) == Some(ends[r])
    ensures forall k :: 0 <= k < |g| && g[k].WriteEvent? && w.End(g[k].runner).Some? ==> g[k].runner in ends
    ensures forall k :: 0 <= k < |ds| && w.End(ds[k].key.writer).Some? ==> ds[k].key.writer in ends
  {
    var writers: set<string> := w.eot.Keys;
    for k := 0 to |g|
      invariant forall j :: 0 <= j < k && g[j].WriteEvent? ==> g[j].runner in writers
    {
      if g[k].WriteEvent? {
        writers := writers + {g[k].runner};
      }
    }
    for k := 0 to |ds|
      invariant forall j :: 0 <= j < |g| && g[j].WriteEvent? ==> g[j].runner in writers
      invariant forall j :: 0 <= j < k ==> ds[j].key.writer in writers
    {
      writers := writers + {ds[k].key.writer};
    }
    ends := map r | r in writers && w.End(r).Some? :: w.End(r).value;
  }

  /** `_write_receive_counts`: collect the writers, build their window ends, count both sides. */
  method WriteReceiveCounts(g: seq<Event>, ds: seq<Delivery>, w: Windows) returns (writeCount: nat, receiveCount: nat)
    ensures writeCount == CountWrites(g, w) == |WritesInTime(g, w)|
    ensures receiveCount == |InWindow(ds, w)| == |DeliveriesInTime(ds, w)|
  {
    hide WritesInTime, DeliveriesInTime, InTime;
    CountIsCardinality(g, w);
    InWindowIsCardinality(ds, w);
    writeCount, receiveCount := 0, 0;
    if w.operateStart.None? {
      for k := 0 to |g|
        invariant writeCount == CountWrites(g[..k], w)
      {
        assert g[..k + 1][..k] == g[..k];
        if g[k].WriteEvent? {
          writeCount := writeCount + 1;
        }
      }
      assert g[..|g|] == g;
      AllInWindow(ds, w);
      receiveCount := |ds|;
      return;
    }
    var ends := WindowEnds(g, ds, w);
    for k := 0 to |g|
      invariant writeCount == CountWrites(g[..k], w)
    {
      var e := g[k];
      assert g[..k + 1][..k] == g[..k];
      if e.WriteEvent? && e.ts >= w.operateStart.value && e.runner in ends && e.ts <= ends[e.runner] {
        writeCount := writeCount + 1;
      }
    }
    assert g[..|g|] == g;
    for k := 0 to |ds|
      invariant receiveCount == |InWindow(ds[..k], w)|
    {
      var d := ds[k];
      assert ds[..k + 1][..k] == ds[..k];
      if d.key.writer in ends && d.writeTs >= w.operateStart.value && d.writeTs <= ends[d.key.writer] {
        receiveCount := receiveCount + 1;
      }
    }
    assert ds[..|ds|] == ds;
  }

  lemma {:induction false} AllInWindow(ds: seq<Delivery>, w: Windows)
    requires w.operateStart.None?
    ensures InWindow(ds, w) == ds
  {
    if ds != [] {
      AllInWindow(ds[..|ds| - 1], w);
      assert ds == ds[..|ds| - 1] + [ds[|ds| - 1]];
    }
  }

  function TotalLeaves(ds: seq<Delivery>): nat {
    if ds == [] then 0 else TotalLeaves(ds[..|ds| - 1]) + ds[|ds| - 1].leaves
  }

  function TotalBytes(ds: seq<Delivery>): int {
    if ds == [] then 0
    else TotalBytes(ds[..|ds| - 1]) + if ds[|ds| - 1].bytes.Some? then ds[|ds| - 1].bytes.value else 0
  }

  function LossPercent(writes: nat, receives: nat): real {
    if writes == 0 then 0.0
    else
      var loss := (1.0 - receives as real / writes as real) * 100.0;
      if loss > 0.0 then loss else 0.0
  }

  datatype Accounting = Accounting(writes: nat, receives: nat, lossPercent: real, leaves: nat, bytes: int)

  function AccountingOf(g: seq<Event>, w: Windows): Accounting {
    var writes, inWindow := CountWrites(g, w), InWindow(Deliveries(g), w);
    Accounting(writes, |inWindow|, LossPercent(writes, |inWindow|), TotalLeaves(inWindow), TotalBytes(inWindow))
  }

  // ----- what the figures count -----

  /** Does a write of `writer` at `ts` count? All do without an operate phase. Otherwise it must not
      precede the operate start, nor exceed the writer's end-of-test or, if it logged none, the silent
      start. */
  predicate InTime(w: Windows, writer: string, ts: int) {
    match w.operateStart
    case None => true
    case Some(start) =>
      start <= ts && if writer in w.eot then ts <= w.eot[writer] else w.silentStart.Some? && ts <= w.silentStart.value
  }

  /** Positions of the writes that count. */
  function WritesInTime(g: seq<Event>, w: Windows): set<nat> {
    set k | 0 <= k < |g| && g[k].WriteEvent? && InTime(w, g[k].runner, g[k].ts)
  }

  lemma {:induction false} CountIsCardinality(g: seq<Event>, w: Windows)
    ensures CountWrites(g, w) == |WritesInTime(g, w)|
  {
    if g != [] {
      var n := |g| - 1;
      CountIsCardinality(g[..n], w);
      assert WritesInTime(g, w) == WritesInTime(g[..n], w) + (if n in WritesInTime(g, w) then {n} else {});
    }
  }

  /** Positions of the deliveries whose write counts. */
  function DeliveriesInTime(ds: seq<Delivery>, w: Windows): set<nat> {
    set k | 0 <= k < |ds| && InTime(w, ds[k].key.writer, ds[k].writeTs)
  }

  lemma {:induction false} InWindowIsCardinality(ds: seq<Delivery>, w: Windows)
    ensures |InWindow(ds, w)| == |DeliveriesInTime(ds, w)|
  {
    if ds == [] {
      assert DeliveriesInTime(ds, w) == {};
    } else {
      var n := |ds| - 1;
      InWindowIsCardinality(ds[..n], w);
      OneMoreInTime(ds, w);
    }
  }

  lemma OneMoreInTime(ds: seq<Delivery>, w: Windows)
    requires ds != []
    ensures var n := |ds| - 1;
      DeliveriesInTime(ds, w) == DeliveriesInTime(ds[..n], w)
        + if InTime(w, ds[n].key.writer, ds[n].writeTs) then {n} else {}
    ensures |ds| - 1 !in DeliveriesInTime(ds[..|ds| - 1], w)
  {
    hide InTime;
  }

  /** The figures of two lists of deliveries add up, and one delivery counts with its leaves and
      bytes if its write is in time. */
  lemma {:induction false} FiguresAddUp(a: seq<Delivery>, b: seq<Delivery>, w: Windows)
    ensures InWindow(a + b, w) == InWindow(a, w) + InWindow(b, w)
    ensures TotalLeaves(a + b) == TotalLeaves(a) + TotalLeaves(b)
    ensures TotalBytes(a + b) == TotalBytes(a) + TotalBytes(b)
    decreases |b|
  {
    if b == [] {
      assert a + b == a;
    } else {
      FiguresAddUp(a, b[..|b| - 1], w);
      assert (a + b)[..|a + b| - 1] == a + b[..|b| - 1];
    }
  }

  lemma FiguresOfOne(d: Delivery, w: Windows)
    ensures InWindow([d], w) == if InTime(w, d.key.writer, d.writeTs) then [d] else []
    ensures TotalLeaves([d]) == d.leaves && TotalLeaves([]) == 0
    ensures TotalBytes([d]) == (match d.bytes case Some(b) => b case None => 0) && TotalBytes([]) == 0
  {
    assert [d][..0] == [];
    assert InWindow([], w) == [];
  }

  /** Of `writes` writes, the percentage that did not arrive. */
  lemma LossMeans(writes: nat, receives: nat)
    ensures 0 < writes && receives <= writes ==>
      LossPercent(writes, receives) * writes as real == 100.0 * (writes - receives) as real
    ensures writes <= receives ==> LossPercent(writes, receives) == 0.0
  {
    if 0 < writes {
      var w, r := writes as real, receives as real;
      assert r / w * w == r;
      if receives <= writes {
        assert r / w <= 1.0;
        assert (1.0 - r / w) * 100.0 * w == 100.0 * w - 100.0 * (r / w * w);
      } else {
        assert r / w > 1.0;
      }
    }
  }

  /** A receive row with all its columns, read off an event. */
  lemma {:induction false} RowsAreCompleteReceives(g: seq<Event>, r: Receive)
    ensures r in ReceiveRows(g) <==>
      ReceiveEvent(r.key.receiver, r.ts, Some(r.key.writer), Some(r.key.sequence), Some(r.key.path)) in g
  {
    if g != [] {
      RowsAreCompleteReceives(g[..|g| - 1], r);
      assert g == g[..|g| - 1] + [g[|g| - 1]];
    }
  }

  lemma {:induction false} RowsAddUp(a: seq<Event>, b: seq<Event>)
    ensures ReceiveRows(a + b) == ReceiveRows(a) + ReceiveRows(b)
    decreases |b|
  {
    if b == [] {
      assert a + b == a;
    } else {
      RowsAddUp(a, b[..|b| - 1]);
      assert (a + b)[..|a + b| - 1] == a + b[..|b| - 1];
    }
  }

  /** A write event of the writer, sequence number and path of `d`, with its time, bytes and leaves;
      one that does not say is one leaf. */
  ghost predicate HasItsWrite(g: seq<Event>, d: Delivery) {
    exists leafCount: Option<nat> ::
      && WriteEvent(d.key.writer, d.writeTs, Some(d.key.sequence), Some(d.key.path), leafCount, d.bytes) in g
      && d.leaves == match leafCount case Some(n) => n case None => 1
  }

  lemma {:induction false} WritesOfHaveTheirWrites(g: seq<Event>, r: Receive, d: Delivery)
    ensures d in WritesOf(g, r) <==> d.key == r.key && d.receiveTs == r.ts && HasItsWrite(g, d)
  {
    if g != [] {
      var n := |g| - 1;
      WritesOfHaveTheirWrites(g[..n], r, d);
      assert g == g[..n] + [g[n]];
      if d in WritesOf(g, r) && d !in WritesOf(g[..n], r) {
        assert WriteEvent(d.key.writer, d.writeTs, Some(d.key.sequence), Some(d.key.path), g[n].leafCount, d.bytes)
          == g[n];
      }
    }
  }

  /** `r` is one of the first `n` rows and not deduplicated away. */
  predicate SurvivesAs(rows: seq<Receive>, n: nat, r: Receive)
    requires n <= |rows|
  {
    exists i :: 0 <= i < n && i in Survivors(rows) && rows[i] == r
  }

  lemma {:induction false} JoinedAreSurviving(g: seq<Event>, rows: seq<Receive>, n: nat, d: Delivery)
    requires n <= |rows|
    ensures d in Joined(g, rows, n) <==> HasItsWrite(g, d) && SurvivesAs(rows, n, Receive(d.key, d.receiveTs))
  {
    hide Survivors, WritesOf, HasItsWrite;
    if n > 0 {
      JoinedAreSurviving(g, rows, n - 1, d);
      WritesOfHaveTheirWrites(g, rows[n - 1], d);
    }
  }

  /** The deliveries are exactly the surviving receive rows with the write events of their writer,
      sequence number and path. */
  lemma DeliveriesExactly(g: seq<Event>, d: Delivery)
    ensures d in Deliveries(g) <==>
      HasItsWrite(g, d) && SurvivesAs(ReceiveRows(g), |ReceiveRows(g)|, Receive(d.key, d.receiveTs))
  {
    hide HasItsWrite, Joined, ReceiveRows, SurvivesAs;
    JoinedAreSurviving(g, ReceiveRows(g), |ReceiveRows(g)|, d);
  }

  // ----- how many there are -----

  /** Positions of the writes in time that belong to `r`. */
  function PartnersOf(g: seq<Event>, r: Receive, w: Windows): set<nat> {
    set j | 0 <= j < |g| && IsWriteOf(g[j], r.key) && InTime(w, g[j].runner, g[j].ts)
  }

  lemma InWindowOneMore(ds: seq<Delivery>, d: Delivery, w: Windows)
    ensures |InWindow(ds + [d], w)| == |InWindow(ds, w)| + if InTime(w, d.key.writer, d.writeTs) then 1 else 0
  {
    assert (ds + [d])[..|ds|] == ds;
  }

  lemma {:induction false} PartnersCount(g: seq<Event>, r: Receive, w: Windows)
    ensures |InWindow(WritesOf(g, r), w)| == |PartnersOf(g, r, w)|
  {
    hide InWindow, InTime;
    if g == [] {
      assert PartnersOf(g, r, w) == {};
      InWindowIsCardinality([], w);
    } else {
      var n := |g| - 1;
      PartnersCount(g[..n], r, w);
      assert PartnersOf(g, r, w) == PartnersOf(g[..n], r, w) + if n in PartnersOf(g, r, w) then {n} else {};
      var some := WritesOf(g[..n], r);
      if IsWriteOf(g[n], r.key) {
        var d := WritesOf(g, r)[|some|];
        assert WritesOf(g, r) == some + [d];
        InWindowOneMore(some, d, w);
      } else {
        assert WritesOf(g, r) == some;
      }
    }
  }

  /** `i` paired with each of `js`. */
  function PairedWith(i: nat, js: set<nat>): set<(nat, nat)> { set j | j in js :: (i, j) }

  lemma InPairedWith(i: nat, js: set<nat>, a: nat, b: nat)
    ensures (a, b) in PairedWith(i, js) <==> a == i && b in js
  {
  }

  lemma {:induction false} PairedWithIsAsLarge(i: nat, js: set<nat>)
    ensures |PairedWith(i, js)| == |js|
  {
    if js == {} {
      assert PairedWith(i, js) == {};
    } else {
      var j :| j in js;
      PairedWithIsAsLarge(i, js - {j});
      forall a: nat, b: nat ensures (a, b) in PairedWith(i, js) <==> (a, b) in PairedWith(i, js - {j}) + {(i, j)} {
        InPairedWith(i, js, a, b);
        InPairedWith(i, js - {j}, a, b);
      }
      InPairedWith(i, js - {j}, i, j);
      assert PairedWith(i, js) == PairedWith(i, js - {j}) + {(i, j)};
    }
  }

  /** Surviving receive row and write that belong together, the write being in time; by position. */
  function PairsInTime(g: seq<Event>, rows: seq<Receive>, n: nat, w: Windows): set<(nat, nat)>
    requires n <= |rows|
  {
    set i, j | 0 <= i < n && 0 <= j < |g| && i in Survivors(rows) && j in PartnersOf(g, rows[i], w) :: (i, j)
  }

  lemma PairsOneMore(g: seq<Event>, rows: seq<Receive>, n: nat, w: Windows)
    requires n < |rows|
    ensures var partners := if n in Survivors(rows) then PartnersOf(g, rows[n], w) else {};
      && PairsInTime(g, rows, n + 1, w) == PairsInTime(g, rows, n, w) + PairedWith(n, partners)
      && PairsInTime(g, rows, n, w) !! PairedWith(n, partners)
  {
    hide Survivors, IsWriteOf, InTime;
  }

  lemma {:induction false} PairsCount(g: seq<Event>, rows: seq<Receive>, n: nat, w: Windows)
    requires n <= |rows|
    ensures |InWindow(Joined(g, rows, n), w)| == |PairsInTime(g, rows, n, w)|
  {
    hide Survivors, WritesOf, PartnersOf, PairsInTime, PairedWith, InTime;
    if n > 0 {
      PairsCount(g, rows, n - 1, w);
      var more := if n - 1 in Survivors(rows) then WritesOf(g, rows[n - 1]) else [];
      var partners := if n - 1 in Survivors(rows) then PartnersOf(g, rows[n - 1], w) else {};
      FiguresAddUp(Joined(g, rows, n - 1), more, w);
      PartnersCount(g, rows[n - 1], w);
      PairedWithIsAsLarge(n - 1, partners);
      PairsOneMore(g, rows, n - 1, w);
    } else {
      NoPairs(g, rows, w);
    }
  }

  lemma NoPairs(g: seq<Event>, rows: seq<Receive>, w: Windows)
    ensures PairsInTime(g, rows, 0, w) == {}
  {
  }

  /** THE RECEIVE COUNT is the number of pairs of a surviving receive row and a write in time with
      its writer, sequence number and path. */
  lemma ReceiveCountIsPairs(g: seq<Event>, w: Windows)
    ensures AccountingOf(g, w).receives == |PairsInTime(g, ReceiveRows(g), |ReceiveRows(g)|, w)|
    ensures AccountingOf(g, w).writes == |WritesInTime(g, w)|
  {
    PairsCount(g, ReceiveRows(g), |ReceiveRows(g)|, w);
    CountIsCardinality(g, w);
  }

  // ----- blindness to receiver clocks -----

  /** The same group with every receive row of runner `r` moved by `c(r)`. */
  function Shifted(g: seq<Event>, c: string -> int): (g': seq<Event>)
    ensures |g'| == |g|
    ensures forall i :: 0 <= i < |g| ==> g'[i] == ShiftedEvent(g[i], c)
  {
    seq(|g|, i requires 0 <= i < |g| => ShiftedEvent(g[i], c))
  }

  function ShiftedEvent(e: Event, c: string -> int): Event {
    match e
    case ReceiveEvent(runner, ts, writer, n, path) => ReceiveEvent(runner, ts + c(runner), writer, n, path)
    case _ => e
  }

  function ShiftedRow(r: Receive, c: string -> int): Receive { r.(ts := r.ts + c(r.key.receiver)) }

  lemma {:induction false} RowsShift(g: seq<Event>, c: string -> int)
    ensures |ReceiveRows(Shifted(g, c))| == |ReceiveRows(g)|
    ensures forall i :: 0 <= i < |ReceiveRows(g)| ==> ReceiveRows(Shifted(g, c))[i] == ShiftedRow(ReceiveRows(g)[i], c)
  {
    if g != [] {
      var n := |g| - 1;
      RowsShift(g[..n], c);
      assert Shifted(g, c)[..n] == Shifted(g[..n], c);
    }
  }

  /** All rows of one key have one receiver, so the chains move as a whole. */
  lemma SurvivorsShift(rows: seq<Receive>, rows': seq<Receive>, c: string -> int)
    requires |rows'| == |rows| && forall i :: 0 <= i < |rows| ==> rows'[i] == ShiftedRow(rows[i], c)
    ensures Survivors(rows') == Survivors(rows)
  {
    forall i | 0 <= i < |rows| ensures i in Survivors(rows') <==> i in Survivors(rows) {
      SurvivorsAreTheChainHeads(rows, i);
      SurvivorsAreTheChainHeads(rows', i);
      HeadShifts(rows, rows', c, i);
    }
  }

  lemma HeadShifts(rows: seq<Receive>, rows': seq<Receive>, c: string -> int, i: nat)
    requires |rows'| == |rows| && forall i :: 0 <= i < |rows| ==> rows'[i] == ShiftedRow(rows[i], c)
    requires i < |rows|
    ensures IsHead(rows', i) <==> IsHead(rows, i)
  {
    forall j | 0 <= j < |rows| && rows[j].key == rows[i].key
      ensures Before(rows', j, i) <==> Before(rows, j, i)
      ensures rows'[i].ts - rows'[j].ts == rows[i].ts - rows[j].ts
    {
    }
  }

  /** Two delivery lists that agree in everything that comes from the write. */
  predicate SameWrites(a: seq<Delivery>, b: seq<Delivery>) {
    |a| == |b| && forall i :: 0 <= i < |a| ==> a[i] == b[i].(receiveTs := a[i].receiveTs)
  }

  lemma {:induction false} WritesShift(g: seq<Event>, r: Receive, c: string -> int)
    ensures SameWrites(WritesOf(Shifted(g, c), ShiftedRow(r, c)), WritesOf(g, r))
  {
    if g != [] {
      var n := |g| - 1;
      WritesShift(g[..n], r, c);
      assert Shifted(g, c)[..n] == Shifted(g[..n], c);
    }
  }

  lemma {:induction false} JoinedShift(g: seq<Event>, rows: seq<Receive>, rows': seq<Receive>, c: string -> int, n: nat)
    requires |rows'| == |rows| && forall i :: 0 <= i < |rows| ==> rows'[i] == ShiftedRow(rows[i], c)
    requires Survivors(rows') == Survivors(rows) && n <= |rows|
    ensures SameWrites(Joined(Shifted(g, c), rows', n), Joined(g, rows, n))
  {
    hide Survivors, WritesOf;
    if n > 0 {
      JoinedShift(g, rows, rows', c, n - 1);
      WritesShift(g, rows[n - 1], c);
    }
  }

  /** Every delivery carries the runner and time of a write event of the group. */
  ghost predicate FromWrite(g: seq<Event>, d: Delivery) {
    exists i :: 0 <= i < |g| && g[i].WriteEvent? && g[i].runner == d.key.writer && g[i].ts == d.writeTs
  }

  lemma {:induction false} WritesOfAreWrites(g: seq<Event>, r: Receive, n: nat)
    requires n <= |g|
    ensures forall i :: 0 <= i < |WritesOf(g[..n], r)| ==> FromWrite(g, WritesOf(g[..n], r)[i])
  {
    if n > 0 {
      WritesOfAreWrites(g, r, n - 1);
      assert g[..n][..n - 1] == g[..n - 1] && g[..n][n - 1] == g[n - 1];
      var ds := WritesOf(g[..n], r);
      forall i | 0 <= i < |ds| ensures FromWrite(g, ds[i]) {
        if i >= |WritesOf(g[..n - 1], r)| {
          assert g[n - 1].runner == ds[i].key.writer && g[n - 1].ts == ds[i].writeTs;
        }
      }
    }
  }

  lemma {:induction false} JoinedAreWrites(g: seq<Event>, rows: seq<Receive>, n: nat)
    requires n <= |rows|
    ensures forall i :: 0 <= i < |Joined(g, rows, n)| ==> FromWrite(g, Joined(g, rows, n)[i])
  {
    hide Survivors, FromWrite, WritesOf;
    if n > 0 {
      JoinedAreWrites(g, rows, n - 1);
      WritesOfAreWrites(g, rows[n - 1], |g|);
      assert g[..|g|] == g;
    }
  }

  lemma EarliestIsUnique(g: seq<Event>, p: Event -> bool, t: Option<int>, t': Option<int>)
    requires IsEarliest(g, p, t) && IsEarliest(g, p, t')
    ensures t == t'
  {
  }

  lemma EarliestIgnoresReceives(g: seq<Event>, c: string -> int, p: Event -> bool, t: Option<int>)
    requires forall e :: p(e) ==> !e.ReceiveEvent?
    requires forall e: Event :: e.ReceiveEvent? ==> !p(ShiftedEvent(e, c))
    requires IsEarliest(Shifted(g, c), p, t)
    ensures IsEarliest(g, p, t)
  {
    var g' := Shifted(g, c);
    forall i | 0 <= i < |g| ensures p(g'[i]) <==> p(g[i]) {
      assert g'[i] == ShiftedEvent(g[i], c);
    }
    if t.Some? {
      var i :| 0 <= i < |g'| && p(g'[i]) && g'[i].ts == t.value;
      assert p(g[i]) && g[i].ts == t.value;
    }
  }

  /** The operate start and every end-of-test are the same in both groups, and so is the silent
      start whenever a silent phase was logged; otherwise it is the latest event of each group. */
  lemma WindowsShift(g: seq<Event>, c: string -> int, w: Windows, w': Windows)
    requires AreWindows(g, w) && AreWindows(Shifted(g, c), w')
    ensures w'.operateStart == w.operateStart && w'.eot == w.eot
    ensures (exists e :: e in g && IsPhase(e, "silent")) ==> w'.silentStart == w.silentStart
    ensures !(exists e :: e in g && IsPhase(e, "silent")) ==>
      IsLatest(g, w.silentStart) && IsLatest(Shifted(g, c), w'.silentStart)
  {
    hide IsEarliest, IsLatest;
    var g' := Shifted(g, c);
    var operate := PhaseNamed("operate");
    var silent := PhaseNamed("silent");
    EarliestIgnoresReceives(g, c, operate, w'.operateStart);
    EarliestIsUnique(g, operate, w.operateStart, w'.operateStart);
    forall r ensures (r in w.eot <==> r in w'.eot) && (r in w.eot ==> w.eot[r] == w'.eot[r]) {
      var p := EotOf(r);
      EarliestIgnoresReceives(g, c, p, Get(w'.eot, r));
      EarliestIsUnique(g, p, Get(w.eot, r), Get(w'.eot, r));
    }
    assert (exists e :: e in g && IsPhase(e, "silent")) <==> (exists e :: e in g' && IsPhase(e, "silent")) by {
      if e :| e in g && IsPhase(e, "silent") {
        var i :| 0 <= i < |g| && g[i] == e;
        assert g'[i] == e && e in g';
      }
      if e :| e in g' && IsPhase(e, "silent") {
        var i :| 0 <= i < |g'| && g'[i] == e;
        assert g[i] == e && e in g;
      }
    }
    if exists e :: e in g && IsPhase(e, "silent") {
      EarliestIgnoresReceives(g, c, silent, w'.silentStart);
      EarliestIsUnique(g, silent, w.silentStart, w'.silentStart);
    }
  }

  /** A write is inside its writer's window in one group iff it is in the other: the fallback end is
      the latest event of the group, which no write exceeds. */
  lemma ContainsShifts(g: seq<Event>, c: string -> int, w: Windows, w': Windows, i: nat)
    requires AreWindows(g, w) && AreWindows(Shifted(g, c), w')
    requires i < |g| && g[i].WriteEvent?
    ensures w'.Contains(g[i].runner, g[i].ts) <==> w.Contains(g[i].runner, g[i].ts)
  {
    WindowsShift(g, c, w, w');
    assert Shifted(g, c)[i] == g[i];
  }

  lemma {:induction false} CountWritesShift(g: seq<Event>, c: string -> int, w: Windows, w': Windows, n: nat)
    requires AreWindows(g, w) && AreWindows(Shifted(g, c), w') && n <= |g|
    ensures CountWrites(Shifted(g, c)[..n], w') == CountWrites(g[..n], w)
  {
    hide AreWindows;
    if n > 0 {
      var g' := Shifted(g, c);
      CountWritesShift(g, c, w, w', n - 1);
      WindowsShift(g, c, w, w');
      assert g[..n][..n - 1] == g[..n - 1] && g'[..n][..n - 1] == g'[..n - 1];
      if g[n - 1].WriteEvent? {
        ContainsShifts(g, c, w, w', n - 1);
      }
    }
  }

  lemma {:induction false} InWindowShift(g: seq<Event>, c: string -> int, w: Windows, w': Windows, ds: seq<Delivery>,
                                         ds': seq<Delivery>)
    requires AreWindows(g, w) && AreWindows(Shifted(g, c), w')
    requires SameWrites(ds', ds) && forall i :: 0 <= i < |ds| ==> FromWrite(g, ds[i])
    ensures SameWrites(InWindow(ds', w'), InWindow(ds, w))
  {
    hide AreWindows;
    if ds != [] {
      var n := |ds| - 1;
      InWindowShift(g, c, w, w', ds[..n], ds'[..n]);
      WindowsShift(g, c, w, w');
      assert FromWrite(g, ds[n]);
      var i :| 0 <= i < |g| && g[i].WriteEvent? && g[i].runner == ds[n].key.writer && g[i].ts == ds[n].writeTs;
      ContainsShifts(g, c, w, w', i);
    }
  }

  lemma {:induction false} TotalsShift(ds: seq<Delivery>, ds': seq<Delivery>)
    requires SameWrites(ds', ds)
    ensures TotalLeaves(ds') == TotalLeaves(ds) && TotalBytes(ds') == TotalBytes(ds)
  {
    if ds != [] {
      TotalsShift(ds[..|ds| - 1], ds'[..|ds| - 1]);
    }
  }

  /** LOSS ACCOUNTING IS BLIND TO RECEIVER CLOCKS: moving each receiver's receive rows by any
      constant changes no write count, receive count, loss, leaf or byte total. It holds with or
      without a logged silent phase. */
  lemma AccountingIgnoresReceiverClocks(g: seq<Event>, c: string -> int, w: Windows, w': Windows)
    requires AreWindows(g, w) && AreWindows(Shifted(g, c), w')
    ensures AccountingOf(Shifted(g, c), w') == AccountingOf(g, w)
  {
    hide AreWindows, CountWrites, InWindow, FromWrite, Survivors;
    var g', rows, rows' := Shifted(g, c), ReceiveRows(g), ReceiveRows(Shifted(g, c));
    RowsShift(g, c);
    SurvivorsShift(rows, rows', c);
    JoinedShift(g, rows, rows', c, |rows|);
    JoinedAreWrites(g, rows, |rows|);
    InWindowShift(g, c, w, w', Deliveries(g), Deliveries(g'));
    TotalsShift(InWindow(Deliveries(g), w), InWindow(Deliveries(g'), w'));
    CountWritesShift(g, c, w, w', |g|);
    assert g[..|g|] == g && g'[..|g'|] == g';
  }
}
