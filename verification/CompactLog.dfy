/** The compact log from end to end: a variant pushes its events into columns with interned paths and
    peers, writes them to a Parquet file without unsigned types, and the analysis reads the file
    back. A real number stands for a value that fits the 32-bit float columns. */
module CompactLog {
  import opened Options
  import opened Integers
  import opened Finite
  import opened CompactProjection

  const MAX_PATHS: nat := 0xFFFF_FFFF
  const MAX_PEERS: nat := 254
  const SHAPE_INTERN := ["scalar", "array", "struct"]

  type U8 = n: int | 0 <= n < 0x100
  type U32 = n: int | 0 <= n < 0x1_0000_0000
  type U64 = n: int | 0 <= n < 0x1_0000_0000_0000_0000
  type I64 = n: int | -0x8000_0000_0000_0000 <= n < 0x8000_0000_0000_0000

  datatype Shape = Scalar | Array | Struct

  /** What a variant tells its log. */
  datatype Observation =
    | Write(ts: I64, path: string, qos: U8, seqNo: U64, bytes: U32, leafCount: U32, shape: Shape)
    | Receive(ts: I64, writer: string, seqNo: U64, path: string, qos: U8, bytes: U32)
    | BackpressureSkipped(ts: I64, path: string, qos: U8)
    | GapDetected(ts: I64, writer: string, missing: U64)
    | GapFilled(ts: I64, writer: string, recovered: U64)
    | Phase(ts: I64, phase: string)
    | Connected(ts: I64, peer: Option<string>, elapsedMs: real, threadingMode: string)
    | EotSent(ts: I64, eotId: U64)
    | EotReceived(ts: I64, writer: string, eotId: U64)
    | EotTimeout(ts: I64, waitMs: U64, missingPeers: string)
    | Resource(ts: I64, cpuPercent: real, memoryMb: real)
    | ClockSync(ts: I64, about: string, offsetNs: I64, rttMs: real)
  {
    function Path(): Option<string> { if Write? || Receive? || BackpressureSkipped? then Some(path) else None }

    function Peer(): Option<string> {
      match this
      case Receive(_, w, _, _, _, _) => Some(w)
      case GapDetected(_, w, _) => Some(w)
      case GapFilled(_, w, _) => Some(w)
      case EotReceived(_, w, _) => Some(w)
      case Connected(_, p, _, _) => p
      case ClockSync(_, p, _, _) => Some(p)
      case _ => None
    }

    predicate NamesIn(paths: set<string>, peers: set<string>) {
      (Path().Some? ==> Path().value in paths) && (Peer().Some? ==> Peer().value in peers)
    }

    lemma NamesStayIn(paths: set<string>, peers: set<string>, paths': set<string>, peers': set<string>)
      requires NamesIn(paths, peers) && paths <= paths' && peers <= peers'
      ensures NamesIn(paths', peers')
    {
    }
  }

  /** One row of the columns in memory. */
  datatype Stored = Stored(
    ts: int, kind: int, seqNo: int, pathIdx: nat, peerIdx: nat, qos: int, bytes: int,
    f32: Option<real>, f32b: Option<real>, i64: Option<int>, utf8: Option<string>,
    leafCount: Option<int>, shapeIdx: Option<int>)

  function NewRow(ts: int, kind: int): Stored {
    Stored(ts, kind, 0, 0, 255, 0, 0, None, None, None, None, None, None)
  }

  function ShapeIndex(s: Shape): int {
    match s
    case Scalar => 0
    case Array => 1
    case Struct => 2
  }

  /** The row of an event, but for its two indices. */
  function Unindexed(e: Observation): Stored {
    match e
    case Write(ts, _, qos, seqNo, bytes, leafCount, shape) =>
      NewRow(ts, 0).(seqNo := seqNo, qos := qos, bytes := bytes,
                     leafCount := Some(leafCount), shapeIdx := Some(ShapeIndex(shape)))
    case Receive(ts, _, seqNo, _, qos, bytes) => NewRow(ts, 1).(seqNo := seqNo, qos := qos, bytes := bytes)
    case BackpressureSkipped(ts, _, qos) => NewRow(ts, 2).(qos := qos)
    case GapDetected(ts, _, n) => NewRow(ts, 3).(seqNo := n, i64 := Some(AsI64(n)))
    case GapFilled(ts, _, n) => NewRow(ts, 4).(seqNo := n, i64 := Some(AsI64(n)))
    case Phase(ts, phase) => NewRow(ts, 5).(utf8 := Some(phase))
    case Connected(ts, _, elapsed, mode) => NewRow(ts, 6).(f32 := Some(elapsed), utf8 := Some(mode))
    case EotSent(ts, id) => NewRow(ts, 7).(i64 := Some(AsI64(id)))
    case EotReceived(ts, _, id) => NewRow(ts, 8).(i64 := Some(AsI64(id)))
    case EotTimeout(ts, wait, missing) => NewRow(ts, 9).(i64 := Some(AsI64(wait)), utf8 := Some(missing))
    case Resource(ts, cpu, memory) => NewRow(ts, 10).(f32 := Some(cpu), f32b := Some(memory))
    case ClockSync(ts, _, offset, rtt) => NewRow(ts, 11).(i64 := Some(offset), f32 := Some(rtt))
  }

  // ----- the file -----

  /** `as i64` and `as i32`: the bits are kept. */
  function AsI64(n: int): int { if n < 0x8000_0000_0000_0000 then n else n - 0x1_0000_0000_0000_0000 }

  function AsI32(n: int): int { if n < 0x8000_0000 then n else n - 0x1_0000_0000 }

  function Parquet(r: Stored): Raw {
    Raw(Some(r.ts), Some(r.kind), Some(AsI64(r.seqNo)), Some(AsI32(r.pathIdx)), Some(r.peerIdx), Some(r.qos),
        Some(AsI32(r.bytes)), if r.leafCount.Some? then Some(AsI32(r.leafCount.value)) else None, r.shapeIdx,
        r.f32, r.f32b, r.i64, r.utf8)
  }

  /** The spawn a file belongs to, from its metadata block. */
  datatype Spawn = Spawn(variant: string, runner: string, run: string, threadingMode: string, recvBufferKb: U32)

  function MetaOf(s: Spawn, paths: seq<string>, peers: seq<string>): Meta {
    Meta(s.variant, s.runner, s.run, Some(s.threadingMode), Some(s.recvBufferKb), paths, peers, SHAPE_INTERN)
  }

  // ----- reading back -----

  /** The row an event should come back as: its own fields in the columns of its kind, all else null. */
  function Shown(s: Spawn, e: Observation): Row {
    var none := (event: string) => Row(Some(e.ts), s.variant, s.runner, s.run, Some(event),
      None, None, None, None, None, None, None, None, None, None, None, None, None, None, None, None, None, None,
      None, None, None);
    match e
    case Write(_, path, qos, n, bytes, leaves, shape) =>
      none("write").(seqNo := Some(n), path := Some(path), qos := Some(qos), bytes := Some(bytes),
        leafCount := Some(leaves),
        shape := Some(match shape case Scalar => "scalar" case Array => "array" case Struct => "struct"))
    case Receive(_, writer, n, path, qos, bytes) =>
      none("receive").(seqNo := Some(n), path := Some(path), writer := Some(writer), qos := Some(qos),
        bytes := Some(bytes))
    case BackpressureSkipped(_, path, qos) => none("backpressure_skipped").(path := Some(path), qos := Some(qos))
    case GapDetected(_, writer, n) => none("gap_detected").(writer := Some(writer), missingSeq := Some(n))
    case GapFilled(_, writer, n) => none("gap_filled").(writer := Some(writer), recoveredSeq := Some(n))
    case Phase(_, phase) => none("phase").(phase := Some(phase))
    case Connected(_, peer, elapsed, mode) =>
      none("connected").(peer := peer, elapsedMs := Some(elapsed), threadingMode := Some(mode),
        recvBufferKb := Some(s.recvBufferKb))
    case EotSent(_, id) => none("eot_sent").(eotId := Some(id))
    case EotReceived(_, writer, id) => none("eot_received").(writer := Some(writer), eotId := Some(id))
    case EotTimeout(_, wait, missing) => none("eot_timeout").(waitMs := Some(wait), eotMissing := Some(missing))
    case Resource(_, cpu, memory) => none("resource").(cpuPercent := Some(cpu), memoryMb := Some(memory))
    case ClockSync(_, peer, offset, rtt) =>
      none("clock_sync").(peer := Some(peer), offsetMs := Some(offset as real / 1_000_000.0), rttMs := Some(rtt))
  }

  /** `r` records `e`: its indices lead to its path and its peer. */
  predicate Records(e: Observation, r: Stored, paths: seq<string>, peers: seq<string>) {
    && r == Unindexed(e).(pathIdx := r.pathIdx, peerIdx := r.peerIdx)
    && (if e.Path().Some? then r.pathIdx < |paths| && paths[r.pathIdx] == e.Path().value else r.pathIdx == 0)
    && (if e.Peer().Some? then r.peerIdx < |peers| && peers[r.peerIdx] == e.Peer().value else r.peerIdx == 255)
  }

  lemma RecordsIfIndexed(e: Observation, r: Stored, paths: seq<string>, peers: seq<string>)
    requires r == Unindexed(e).(pathIdx := r.pathIdx, peerIdx := r.peerIdx)
    requires if e.Path().Some? then r.pathIdx < |paths| && paths[r.pathIdx] == e.Path().value else r.pathIdx == 0
    requires if e.Peer().Some? then r.peerIdx < |peers| && peers[r.peerIdx] == e.Peer().value else r.peerIdx == 255
    ensures Records(e, r, paths, peers)
  {
  }

  lemma NotIndexed(e: Observation)
    ensures Unindexed(e).pathIdx == 0 && Unindexed(e).peerIdx == 255
  {
  }

  /** Row by row, `rows` record `events`. */
  ghost predicate AllRecorded(events: seq<Observation>, rows: seq<Stored>, paths: seq<string>, peers: seq<string>) {
    |rows| == |events| && forall i :: 0 <= i < |events| ==> Records(events[i], rows[i], paths, peers)
  }

  /** Growing tables keep what the rows say. */
  lemma StillRecorded(events: seq<Observation>, rows: seq<Stored>, paths: seq<string>, peers: seq<string>,
                      paths': seq<string>, peers': seq<string>)
    requires AllRecorded(events, rows, paths, peers) && paths <= paths' && peers <= peers'
    ensures AllRecorded(events, rows, paths', peers')
  {
    hide Unindexed;
  }

  lemma OneMoreRecorded(events: seq<Observation>, rows: seq<Stored>, paths: seq<string>, peers: seq<string>,
                        e: Observation, r: Stored)
    requires AllRecorded(events, rows, paths, peers) && Records(e, r, paths, peers)
    ensures AllRecorded(events + [e], rows + [r], paths, peers)
  {
    hide Records;
  }

  /** No number of the event is in the upper half of its unsigned column, and neither is the index of
      its path. */
  predicate IsSmall(e: Observation, pathIdx: nat) {
    match e
    case Write(_, _, qos, n, bytes, leaves, _) =>
      qos < 0x80 && n < 0x8000_0000_0000_0000 && bytes < 0x8000_0000 && leaves < 0x8000_0000 && pathIdx < 0x8000_0000
    case Receive(_, _, n, _, qos, bytes) =>
      qos < 0x80 && n < 0x8000_0000_0000_0000 && bytes < 0x8000_0000 && pathIdx < 0x8000_0000
    case BackpressureSkipped(_, _, qos) => qos < 0x80 && pathIdx < 0x8000_0000
    case GapDetected(_, _, n) => n < 0x8000_0000_0000_0000
    case GapFilled(_, _, n) => n < 0x8000_0000_0000_0000
    case EotSent(_, id) => id < 0x8000_0000_0000_0000
    case EotReceived(_, _, id) => id < 0x8000_0000_0000_0000
    case EotTimeout(_, wait, _) => wait < 0x8000_0000_0000_0000
    case _ => true
  }

  /** The analysis reads an event back as it was pushed exactly when it is small: it does not undo the
      casts of the writer. */
  lemma ReadsBackExactlyWhenSmall(s: Spawn, e: Observation, r: Stored, paths: seq<string>, peers: seq<string>)
    requires Records(e, r, paths, peers) && |paths| <= MAX_PATHS && |peers| <= MAX_PEERS
    ensures var meta := MetaOf(s, paths, peers);
      OnePassRow(meta, Resolved(meta, Parquet(r))) == Shown(s, e) <==> IsSmall(e, r.pathIdx)
  {
    if e.Write? || e.Receive? || e.BackpressureSkipped? {
      TrafficReadsBack(s, e, r, paths, peers);
    } else if e.Phase? || e.Connected? || e.Resource? || e.ClockSync? {
      SamplesReadBack(s, e, r, paths, peers);
    } else if e.GapDetected? || e.GapFilled? {
      GapsReadBack(s, e, r, paths, peers);
    } else {
      EotsReadBack(s, e, r, paths, peers);
    }
  }

  lemma TrafficReadsBack(s: Spawn, e: Observation, r: Stored, paths: seq<string>, peers: seq<string>)
    requires Records(e, r, paths, peers) && |paths| <= MAX_PATHS && |peers| <= MAX_PEERS
    requires e.Write? || e.Receive? || e.BackpressureSkipped?
    ensures var meta := MetaOf(s, paths, peers);
      OnePassRow(meta, Resolved(meta, Parquet(r))) == Shown(s, e) <==> IsSmall(e, r.pathIdx)
  {
    ShapesReadBack();
  }

  lemma SamplesReadBack(s: Spawn, e: Observation, r: Stored, paths: seq<string>, peers: seq<string>)
    requires Records(e, r, paths, peers) && |peers| <= MAX_PEERS
    requires e.Phase? || e.Connected? || e.Resource? || e.ClockSync?
    ensures var meta := MetaOf(s, paths, peers);
      OnePassRow(meta, Resolved(meta, Parquet(r))) == Shown(s, e) <==> IsSmall(e, r.pathIdx)
  {
  }

  lemma GapsReadBack(s: Spawn, e: Observation, r: Stored, paths: seq<string>, peers: seq<string>)
    requires Records(e, r, paths, peers) && |peers| <= MAX_PEERS
    requires e.GapDetected? || e.GapFilled?
    ensures var meta := MetaOf(s, paths, peers);
      OnePassRow(meta, Resolved(meta, Parquet(r))) == Shown(s, e) <==> IsSmall(e, r.pathIdx)
  {
  }

  lemma EotsReadBack(s: Spawn, e: Observation, r: Stored, paths: seq<string>, peers: seq<string>)
    requires Records(e, r, paths, peers) && |peers| <= MAX_PEERS
    requires e.EotSent? || e.EotReceived? || e.EotTimeout?
    ensures var meta := MetaOf(s, paths, peers);
      OnePassRow(meta, Resolved(meta, Parquet(r))) == Shown(s, e) <==> IsSmall(e, r.pathIdx)
  {
  }

  lemma ShapesReadBack()
    ensures Lookup(Some(ShapeIndex(Scalar)), SHAPE_INTERN) == Some("scalar")
    ensures Lookup(Some(ShapeIndex(Array)), SHAPE_INTERN) == Some("array")
    ensures Lookup(Some(ShapeIndex(Struct)), SHAPE_INTERN) == Some("struct")
  {
  }

  /** What larger numbers come back as: a byte count wraps to a negative one, a leaf count becomes the
      default, an id is lost. */
  lemma LargeNumbersReadBackAs(s: Spawn, e: Observation, r: Stored, paths: seq<string>, peers: seq<string>)
    requires Records(e, r, paths, peers)
    ensures
      var row := OnePassRow(MetaOf(s, paths, peers), Resolved(MetaOf(s, paths, peers), Parquet(r)));
      && (e.Write? && e.bytes >= 0x8000_0000 ==> row.bytes == Some(e.bytes - 0x1_0000_0000))
      && (e.Write? && e.leafCount >= 0x8000_0000 ==> row.leafCount == Some(1))
      && (e.EotSent? && e.eotId >= 0x8000_0000_0000_0000 ==> row.eotId == None)
  {
    hide Lookup;
  }

  // ----- the intern tables -----

  class Interner {
    const cap: nat
    var lookup: map<string, nat>
    var dict: seq<string>

    ghost predicate Valid()
      reads this
    {
      && |dict| <= cap && lookup.Keys == Known() && |Known()| == |dict|
      && forall i :: 0 <= i < |dict| ==> lookup[dict[i]] == i
    }

    ghost function Known(): set<string>
      reads this
    {
      set s | s in dict
    }

    constructor (cap: nat)
      ensures Valid() && this.cap == cap && dict == []
    {
      this.cap := cap;
      lookup, dict := map[], [];
    }

    /** The index of a string, the same one whenever it comes again; a full table takes no new ones. */
    method Intern(s: string) returns (idx: Option<nat>)
      requires Valid()
      modifies this
      ensures Valid()
      ensures idx.Some? <==> s in old(dict) || |old(dict)| < cap
      ensures idx.Some? ==> idx.value < |dict| && dict[idx.value] == s
      ensures dict == if s in old(dict) || |old(dict)| >= cap then old(dict) else old(dict) + [s]
      ensures s in old(lookup) ==> idx == Some(old(lookup)[s])
    {
      if s in lookup {
        return Some(lookup[s]);
      }
      if |dict| >= cap {
        return None;
      }
      idx := Some(|dict|);
      ghost var known := Known();
      dict := dict + [s];
      lookup := lookup[s := idx.value];
      assert Known() == known + {s};
    }
  }

  // ----- the columns -----

  class CompactBuffers {
    const paths: Interner
    const peers: Interner
    var ts: seq<int>
    var kind: seq<int>
    var seqNo: seq<int>
    var pathIdx: seq<nat>
    var peerIdx: seq<nat>
    var qos: seq<int>
    var bytes: seq<int>
    var f32: seq<Option<real>>
    var f32b: seq<Option<real>>
    var i64: seq<Option<int>>
    var utf8: seq<Option<string>>
    var leafCount: seq<Option<int>>
    var shapeIdx: seq<Option<int>>
    ghost var log: seq<Observation>

    /** All columns have one entry for each event logged. */
    predicate InLockstep(n: nat)
      reads this
    {
      |ts| == |kind| == |seqNo| == |pathIdx| == |peerIdx| == |qos| == |bytes| == |f32| == |f32b| == |i64| == |utf8|
      == |leafCount| == |shapeIdx| == n
    }

    function RowAt(i: nat): Stored
      requires i < |ts| && InLockstep(|ts|)
      reads this
    {
      Stored(ts[i], kind[i], seqNo[i], pathIdx[i], peerIdx[i], qos[i], bytes[i],
             f32[i], f32b[i], i64[i], utf8[i], leafCount[i], shapeIdx[i])
    }

    ghost function Rows(): seq<Stored>
      requires InLockstep(|ts|)
      reads this
    {
      seq(|ts|, i requires 0 <= i < |ts| && InLockstep(|ts|) reads this => RowAt(i))
    }

    ghost predicate Valid()
      reads this, paths, peers
    {
      && paths != peers && paths.Valid() && peers.Valid() && paths.cap == MAX_PATHS && peers.cap == MAX_PEERS
      && InLockstep(|ts|) && AllRecorded(log, Rows(), paths.dict, peers.dict)
    }

    constructor ()
      ensures Valid() && fresh(paths) && fresh(peers) && log == [] && paths.dict == [] && peers.dict == []
    {
      paths := new Interner(MAX_PATHS);
      peers := new Interner(MAX_PEERS);
      ts, kind, seqNo, pathIdx, peerIdx, qos, bytes := [], [], [], [], [], [], [];
      f32, f32b, i64, utf8, leafCount, shapeIdx, log := [], [], [], [], [], [], [];
    }

    method PushBase(r: Stored)
      modifies this`ts, this`kind, this`seqNo, this`pathIdx, this`peerIdx, this`qos, this`bytes
      ensures ts == old(ts) + [r.ts] && kind == old(kind) + [r.kind] && seqNo == old(seqNo) + [r.seqNo]
      ensures pathIdx == old(pathIdx) + [r.pathIdx] && peerIdx == old(peerIdx) + [r.peerIdx]
      ensures qos == old(qos) + [r.qos] && bytes == old(bytes) + [r.bytes]
    {
      ts := ts + [r.ts];
      kind := kind + [r.kind];
      seqNo := seqNo + [r.seqNo];
      pathIdx := pathIdx + [r.pathIdx];
      peerIdx := peerIdx + [r.peerIdx];
      qos := qos + [r.qos];
      bytes := bytes + [r.bytes];
    }

    method PushExtras(r: Stored)
      modifies this`f32, this`f32b, this`i64, this`utf8, this`leafCount, this`shapeIdx
      ensures f32 == old(f32) + [r.f32] && f32b == old(f32b) + [r.f32b] && i64 == old(i64) + [r.i64]
      ensures utf8 == old(utf8) + [r.utf8] && leafCount == old(leafCount) + [r.leafCount]
      ensures shapeIdx == old(shapeIdx) + [r.shapeIdx]
    {
      f32 := f32 + [r.f32];
      f32b := f32b + [r.f32b];
      i64 := i64 + [r.i64];
      utf8 := utf8 + [r.utf8];
      leafCount := leafCount + [r.leafCount];
      shapeIdx := shapeIdx + [r.shapeIdx];
    }

    method PushRow(ghost e: Observation, r: Stored)
      requires InLockstep(|ts|)
      modifies this
      ensures log == old(log) + [e] && InLockstep(|ts|) && Rows() == old(Rows()) + [r]
    {
      PushBase(r);
      PushExtras(r);
      log := log + [e];
    }

    /** The twelve `push_*`: intern the path, then the peer, then append a row. */
    method Push(e: Observation) returns (ok: bool)
      requires Valid()
      modifies this, paths, peers
      ensures Valid() && log == if ok then old(log) + [e] else old(log)
      ensures ok <==>
        && (e.Path().Some? ==> e.Path().value in old(paths.dict) || |old(paths.dict)| < MAX_PATHS)
        && (e.Peer().Some? ==> e.Peer().value in old(peers.dict) || |old(peers.dict)| < MAX_PEERS)
      ensures old(paths.dict) <= paths.dict && old(peers.dict) <= peers.dict
      ensures ok && e.Path().Some? ==> e.Path().value in paths.dict
      ensures ok && e.Peer().Some? ==> e.Peer().value in peers.dict
      ensures paths.Known() <= old(paths.Known()) + (if e.Path().Some? then {e.Path().value} else {})
      ensures peers.Known() <= old(peers.Known()) + (if e.Peer().Some? then {e.Peer().value} else {})
    {
      hide Unindexed, Records, AllRecorded, InLockstep, Rows;
      NotIndexed(e);
      var r := Unindexed(e);
      if e.Path().Some? {
        var i := paths.Intern(e.Path().value);
        StillRecorded(log, Rows(), old(paths.dict), old(peers.dict), paths.dict, peers.dict);
        if i.None? { return false; }
        r := r.(pathIdx := i.value);
      }
      if e.Peer().Some? {
        var i := peers.Intern(e.Peer().value);
        StillRecorded(log, Rows(), old(paths.dict), old(peers.dict), paths.dict, peers.dict);
        if i.None? { return false; }
        r := r.(peerIdx := i.value);
      }
      RecordsIfIndexed(e, r, paths.dict, peers.dict);
      OneMoreRecorded(log, Rows(), paths.dict, peers.dict, e, r);
      PushRow(e, r);
      ok := true;
    }

    function File(): seq<Raw>
      requires InLockstep(|ts|)
      reads this
    {
      seq(|ts|, i requires 0 <= i < |ts| && InLockstep(|ts|) reads this => Parquet(RowAt(i)))
    }

    /** THE LOG READS BACK: the analysis finds one row for each event pushed, in order, and it is the
        event pushed exactly when the event is small. */
    lemma FileReadsBack(s: Spawn)
      requires Valid()
      ensures var rows := OnePass(MetaOf(s, paths.dict, peers.dict), File());
        |rows| == |log| && forall i :: 0 <= i < |log| ==> (rows[i] == Shown(s, log[i]) <==> IsSmall(log[i], pathIdx[i]))
    {
      hide Join, OnePassRow, Resolved, Parquet, Shown, IsSmall, Unindexed;
      var meta := MetaOf(s, paths.dict, peers.dict);
      JoinKeepsRows(meta, File());
      forall i | 0 <= i < |log|
        ensures OnePass(meta, File())[i] == Shown(s, log[i]) <==> IsSmall(log[i], pathIdx[i])
      {
        ReadsBackExactlyWhenSmall(s, log[i], RowAt(i), paths.dict, peers.dict);
      }
    }

    /** An event that names only paths and peers the tables have room for is logged. */
    method PushWithin(e: Observation, ghost allPaths: set<string>, ghost allPeers: set<string>) returns (ok: bool)
      requires Valid() && paths.Known() <= allPaths && peers.Known() <= allPeers
      requires (e.Path().Some? ==> e.Path().value in allPaths) && (e.Peer().Some? ==> e.Peer().value in allPeers)
      modifies this, paths, peers
      ensures Valid() && log == if ok then old(log) + [e] else old(log)
      ensures |allPaths| <= MAX_PATHS && |allPeers| <= MAX_PEERS ==> ok
      ensures ok ==> e.NamesIn(paths.Known(), peers.Known())
      ensures old(paths.Known()) <= paths.Known() <= allPaths && old(peers.Known()) <= peers.Known() <= allPeers
    {
      hide Valid, Observation.Path, Observation.Peer;
      KnownAreListed();
      RoomForMore(paths.Known(), allPaths, e.Path());
      RoomForMore(peers.Known(), allPeers, e.Peer());
      ok := Push(e);
    }

    lemma KnownAreListed()
      requires Valid()
      ensures |paths.Known()| == |paths.dict| && |peers.Known()| == |peers.dict|
    {
      hide AllRecorded, InLockstep, Rows;
    }

    lemma TablesHold(events: seq<Observation>)
      requires Valid() && forall e :: e in events ==> e.NamesIn(paths.Known(), peers.Known())
      ensures |PathsOf(events)| <= MAX_PATHS && |PeersOf(events)| <= MAX_PEERS
    {
      hide AllRecorded, InLockstep, Rows, Observation.Path, Observation.Peer;
      SubsetIsNotLarger(PathsOf(events), paths.Known());
      SubsetIsNotLarger(PeersOf(events), peers.Known());
    }

    /** A run of pushes on fresh buffers goes on until one fails. All events are logged exactly when
        they name no more paths and peers than the tables hold. */
    method PushAll(events: seq<Observation>) returns (n: nat)
      requires Valid() && log == [] && paths.dict == [] && peers.dict == []
      modifies this, paths, peers
      ensures Valid() && n <= |events| && log == events[..n]
      ensures n == |events| <==> |PathsOf(events)| < 0x1_0000_0000 && |PeersOf(events)| <= 254
    {
      hide Valid, PathsOf, PeersOf, Observation.Path, Observation.Peer, Observation.NamesIn;
      n := 0;
      while n < |events|
        invariant Valid() && n <= |events| && log == events[..n]
        invariant paths.Known() <= PathsOf(events) && peers.Known() <= PeersOf(events)
        invariant forall e :: e in events[..n] ==> e.NamesIn(paths.Known(), peers.Known())
      {
        NamesOf(events, n);
        ghost var paths0, peers0 := paths.Known(), peers.Known();
        var ok := PushWithin(events[n], PathsOf(events), PeersOf(events));
        if !ok {
          return;
        }
        assert events[..n + 1] == events[..n] + [events[n]];
        forall e | e in events[..n] ensures e.NamesIn(paths.Known(), peers.Known()) {
          e.NamesStayIn(paths0, peers0, paths.Known(), peers.Known());
        }
        n := n + 1;
      }
      assert events[..n] == events;
      TablesHold(events);
    }
  }

  function PathsOf(events: seq<Observation>): set<string> {
    set e | e in events && e.Path().Some? :: e.Path().value
  }

  function PeersOf(events: seq<Observation>): set<string> {
    set e | e in events && e.Peer().Some? :: e.Peer().value
  }

  lemma NamesOf(events: seq<Observation>, k: nat)
    requires k < |events|
    ensures events[k].Path().Some? ==> events[k].Path().value in PathsOf(events)
    ensures events[k].Peer().Some? ==> events[k].Peer().value in PeersOf(events)
  {
  }

  lemma RoomForMore(known: set<string>, all: set<string>, next: Option<string>)
    requires known <= all && (next.Some? ==> next.value in all)
    ensures next.Some? && next.value !in known ==> |known| < |all|
  {
    if next.Some? && next.value !in known {
      SubsetIsNotLarger(known + {next.value}, all);
    }
  }
}
