/** Projecting a compact event log onto the shard columns: in one pass, every column a case
    distinction over the row's kind; or, as before, with one filtered projection for each of the
    twelve kinds, concatenated and padded with nulls. */
module CompactProjection {
  import opened Options
  import opened Integers

  const KINDS: nat := 12
  const PEER_SELF: int := 255

  /** A raw row; every column may be null, a missing column is null everywhere. */
  datatype Raw = Raw(
    ts: Option<int>, kind: Option<int>, seqNo: Option<int>, pathIdx: Option<int>, peerIdx: Option<int>,
    qos: Option<int>, bytes: Option<int>, leafCount: Option<int>, shapeIdx: Option<int>,
    f32: Option<real>, f32b: Option<real>, i64: Option<int>, utf8: Option<string>)

  /** The file's metadata: the spawn's identity and the intern dictionaries. */
  datatype Meta = Meta(
    variant: string, runner: string, run: string, threadingMode: Option<string>, recvBufferKb: Option<nat>,
    paths: seq<string>, peers: seq<string>, shapes: seq<string>)

  datatype Enriched = Enriched(raw: Raw, path: Option<string>, peer: Option<string>, shape: Option<string>)

  datatype Row = Row(
    ts: Option<int>, variant: string, runner: string, run: string, event: Option<string>,
    seqNo: Option<int>, path: Option<string>, writer: Option<string>, qos: Option<int>,
    elapsedMs: Option<real>, phase: Option<string>, missingSeq: Option<int>, recoveredSeq: Option<int>,
    cpuPercent: Option<real>, memoryMb: Option<real>, peer: Option<string>, offsetMs: Option<real>,
    rttMs: Option<real>, eotId: Option<int>, eotMissing: Option<string>, waitMs: Option<int>,
    threadingMode: Option<string>, recvBufferKb: Option<nat>, leafCount: Option<int>,
    shape: Option<string>, bytes: Option<int>)

  // ----- casts -----

  /** A cast with `strict=False`: what does not fit becomes null. */
  function Cast(v: Option<int>, fits: int -> bool): Option<int> {
    if v.Some? && fits(v.value) then v else None
  }

  /** A strict cast raises on what does not fit. */
  predicate StrictCastOk(v: Option<int>, fits: int -> bool) { v.Some? ==> fits(v.value) }

  function FillNull<T>(v: Option<T>, default: T): Option<T> { if v.None? then Some(default) else v }

  function OffsetMs(v: Option<int>): Option<real> { if v.None? then None else Some(v.value as real / 1_000_000.0) }

  // ----- the intern tables -----

  /** The rows of a left join of one value with a lookup table: all matches, or one null. */
  function LeftJoin(key: Option<int>, table: seq<(int, string)>): (hits: seq<Option<string>>) {
    var hits := Matches(key, table);
    if hits == [] then [None] else hits
  }

  function Matches(key: Option<int>, table: seq<(int, string)>): seq<Option<string>> {
    if table == [] then []
    else
      var t := table[|table| - 1];
      Matches(key, table[..|table| - 1]) + if key == Some(t.0) then [Some(t.1)] else []
  }

  function InternTable(values: seq<string>): seq<(int, string)> {
    seq(|values|, i requires 0 <= i < |values| => (i, values[i]))
  }

  function Lookup(key: Option<int>, values: seq<string>): Option<string> {
    if key.Some? && 0 <= key.value < |values| then Some(values[key.value]) else None
  }

  lemma {:induction false} MatchesInIntern(key: Option<int>, values: seq<string>)
    ensures Matches(key, InternTable(values)) == if Lookup(key, values).Some? then [Lookup(key, values)] else []
  {
    if values != [] {
      var n := |values| - 1;
      MatchesInIntern(key, values[..n]);
      assert InternTable(values)[..n] == InternTable(values[..n]);
    }
  }

  /** A join on an intern table yields exactly one row for each row: the indexed string, or null. */
  lemma JoinIsLookup(key: Option<int>, values: seq<string>)
    ensures LeftJoin(key, InternTable(values)) == [Lookup(key, values)]
  {
    MatchesInIntern(key, values);
  }

  /** A join of a frame: each row once for each hit. */
  function JoinPaths(meta: Meta, e: Enriched): seq<Enriched> {
    var hits := LeftJoin(e.raw.pathIdx, InternTable(meta.paths));
    seq(|hits|, i requires 0 <= i < |hits| => e.(path := hits[i]))
  }

  function JoinPeers(meta: Meta, e: Enriched): seq<Enriched> {
    var hits := LeftJoin(e.raw.peerIdx, InternTable(meta.peers));
    seq(|hits|, i requires 0 <= i < |hits| => e.(peer := hits[i]))
  }

  function JoinShapes(meta: Meta, e: Enriched): seq<Enriched> {
    var hits := LeftJoin(e.raw.shapeIdx, InternTable(meta.shapes));
    seq(|hits|, i requires 0 <= i < |hits| => e.(shape := hits[i]))
  }

  function FlatMap(es: seq<Enriched>, f: Enriched -> seq<Enriched>): seq<Enriched> {
    if es == [] then [] else FlatMap(es[..|es| - 1], f) + f(es[|es| - 1])
  }

  function Join(meta: Meta, rows: seq<Raw>): seq<Enriched> {
    var unresolved := seq(|rows|, i requires 0 <= i < |rows| => Enriched(rows[i], None, None, None));
    var withPaths := FlatMap(unresolved, e => JoinPaths(meta, e));
    var withPeers := FlatMap(withPaths, e => JoinPeers(meta, e));
    FlatMap(withPeers, e => JoinShapes(meta, e))
  }

  lemma {:induction false} FlatMapOfSingles(es: seq<Enriched>, f: Enriched -> seq<Enriched>)
    requires forall i :: 0 <= i < |es| ==> |f(es[i])| == 1
    ensures |FlatMap(es, f)| == |es| && forall i :: 0 <= i < |es| ==> FlatMap(es, f)[i] == f(es[i])[0]
  {
    if es != [] {
      FlatMapOfSingles(es[..|es| - 1], f);
    }
  }

  lemma JoinOneRow(meta: Meta, e: Enriched)
    ensures JoinPaths(meta, e) == [e.(path := Lookup(e.raw.pathIdx, meta.paths))]
    ensures JoinPeers(meta, e) == [e.(peer := Lookup(e.raw.peerIdx, meta.peers))]
    ensures JoinShapes(meta, e) == [e.(shape := Lookup(e.raw.shapeIdx, meta.shapes))]
  {
    JoinIsLookup(e.raw.pathIdx, meta.paths);
    JoinIsLookup(e.raw.peerIdx, meta.peers);
    JoinIsLookup(e.raw.shapeIdx, meta.shapes);
  }

  function Resolved(meta: Meta, raw: Raw): Enriched {
    Enriched(raw, Lookup(raw.pathIdx, meta.paths), Lookup(raw.peerIdx, meta.peers), Lookup(raw.shapeIdx, meta.shapes))
  }

  /** The joins neither add nor drop a row, and keep the order. */
  lemma JoinKeepsRows(meta: Meta, rows: seq<Raw>)
    ensures |Join(meta, rows)| == |rows|
    ensures forall i :: 0 <= i < |rows| ==> Join(meta, rows)[i] == Resolved(meta, rows[i])
  {
    hide JoinPaths, JoinPeers, JoinShapes, Lookup, FlatMap;
    forall e ensures JoinPaths(meta, e) == [e.(path := Lookup(e.raw.pathIdx, meta.paths))]
      && JoinPeers(meta, e) == [e.(peer := Lookup(e.raw.peerIdx, meta.peers))]
      && JoinShapes(meta, e) == [e.(shape := Lookup(e.raw.shapeIdx, meta.shapes))]
    {
      JoinOneRow(meta, e);
    }
    var unresolved := seq(|rows|, i requires 0 <= i < |rows| => Enriched(rows[i], None, None, None));
    FlatMapOfSingles(unresolved, e => JoinPaths(meta, e));
    var withPaths := FlatMap(unresolved, e => JoinPaths(meta, e));
    FlatMapOfSingles(withPaths, e => JoinPeers(meta, e));
    var withPeers := FlatMap(withPaths, e => JoinPeers(meta, e));
    FlatMapOfSingles(withPeers, e => JoinShapes(meta, e));
  }

  // ----- the twelve projections -----

  /** A row with the identity columns only. */
  function Blank(meta: Meta, e: Enriched): Row {
    Row(e.raw.ts, meta.variant, meta.runner, meta.run, None,
        None, None, None, None, None, None, None, None, None, None, None, None, None, None, None, None, None, None,
        None, None, None)
  }

  /** The row's own threading mode, else the file's. */
  function ThreadingMode(meta: Meta, r: Raw): Option<string> {
    if meta.threadingMode.Some? then FillNull(r.utf8, meta.threadingMode.value) else r.utf8
  }

  /** What the projection of kind `k` selects, padded with nulls. */
  function KindRow(k: nat, meta: Meta, e: Enriched): Row {
    var r, b := e.raw, Blank(meta, e);
    match k
    case 0 => b.(event := Some("write"), seqNo := r.seqNo, path := e.path, qos := r.qos,
                 bytes := Cast(r.bytes, FitsI64),
                 leafCount := FillNull(Cast(r.leafCount, FitsU32), 1), shape := FillNull(e.shape, "scalar"))
    case 1 => b.(event := Some("receive"), seqNo := r.seqNo, path := e.path, writer := e.peer, qos := r.qos,
                 bytes := Cast(r.bytes, FitsI64))
    case 2 => b.(event := Some("backpressure_skipped"), path := e.path, qos := r.qos)
    case 3 => b.(event := Some("gap_detected"), writer := e.peer, missingSeq := r.i64)
    case 4 => b.(event := Some("gap_filled"), writer := e.peer, recoveredSeq := r.i64)
    case 5 => b.(event := Some("phase"), phase := r.utf8)
    case 6 => b.(event := Some("connected"), peer := if r.peerIdx == Some(PEER_SELF) then None else e.peer,
                 elapsedMs := r.f32, threadingMode := ThreadingMode(meta, r), recvBufferKb := meta.recvBufferKb)
    case 7 => b.(event := Some("eot_sent"), eotId := Cast(r.i64, FitsU64))
    case 8 => b.(event := Some("eot_received"), writer := e.peer, eotId := Cast(r.i64, FitsU64))
    case 9 => b.(event := Some("eot_timeout"), waitMs := Cast(r.i64, FitsU64), eotMissing := r.utf8)
    case 10 => b.(event := Some("resource"), cpuPercent := r.f32, memoryMb := r.f32b)
    case 11 => b.(event := Some("clock_sync"), peer := e.peer, offsetMs := OffsetMs(r.i64), rttMs := r.f32)
    case _ => b
  }

  predicate IsKind(e: Enriched, k: nat) { e.raw.kind == Some(k) }

  predicate HasQos(k: nat) { k < 3 }

  /** Does the strict cast of the qos column succeed in the projection of kind `k`? */
  predicate ProjectionOk(es: seq<Enriched>, k: nat) {
    forall i :: 0 <= i < |es| && IsKind(es[i], k) && HasQos(k) ==> StrictCastOk(es[i].raw.qos, FitsI8)
  }

  function Project(es: seq<Enriched>, k: nat, meta: Meta): seq<Row> {
    if es == [] then []
    else Project(es[..|es| - 1], k, meta) + if IsKind(es[|es| - 1], k) then [KindRow(k, meta, es[|es| - 1])] else []
  }

  /** The projections of the kinds below `k`, concatenated. */
  function Projections(es: seq<Enriched>, k: nat, meta: Meta): seq<Row> {
    if k == 0 then [] else Projections(es, k - 1, meta) + Project(es, k - 1, meta)
  }

  /** The twelve-pass form; a failing cast raises. */
  function TwelvePass(meta: Meta, rows: seq<Raw>): Option<seq<Row>> {
    var es := Join(meta, rows);
    if forall k: nat :: k < KINDS ==> ProjectionOk(es, k) then Some(Projections(es, KINDS, meta)) else None
  }

  // ----- the one-pass projection -----

  predicate In(kind: Option<int>, kinds: set<int>) { kind.Some? && kind.value in kinds }

  function When<T>(c: bool, v: Option<T>): Option<T> { if c then v else None }

  /** Every column one case distinction; a null kind satisfies no case. */
  function OnePassRow(meta: Meta, e: Enriched): Row {
    var r, kind := e.raw, e.raw.kind;
    Row(
      r.ts, meta.variant, meta.runner, meta.run,
      if kind == Some(0) then Some("write")
      else if kind == Some(1) then Some("receive")
      else if kind == Some(2) then Some("backpressure_skipped")
      else if kind == Some(3) then Some("gap_detected")
      else if kind == Some(4) then Some("gap_filled")
      else if kind == Some(5) then Some("phase")
      else if kind == Some(6) then Some("connected")
      else if kind == Some(7) then Some("eot_sent")
      else if kind == Some(8) then Some("eot_received")
      else if kind == Some(9) then Some("eot_timeout")
      else if kind == Some(10) then Some("resource")
      else if kind == Some(11) then Some("clock_sync")
      else None,
      When(In(kind, {0, 1}), r.seqNo),
      When(In(kind, {0, 1, 2}), e.path),
      When(In(kind, {1, 3, 4, 8}), e.peer),
      When(In(kind, {0, 1, 2}), Cast(r.qos, FitsI8)),
      When(kind == Some(6), r.f32),
      When(kind == Some(5), r.utf8),
      When(kind == Some(3), r.i64),
      When(kind == Some(4), r.i64),
      When(kind == Some(10), r.f32),
      When(kind == Some(10), r.f32b),
      if kind == Some(6) then (if r.peerIdx == Some(PEER_SELF) then None else e.peer)
      else if kind == Some(11) then e.peer
      else None,
      When(kind == Some(11), OffsetMs(r.i64)),
      When(kind == Some(11), r.f32),
      When(In(kind, {7, 8}), Cast(r.i64, FitsU64)),
      When(kind == Some(9), r.utf8),
      When(kind == Some(9), Cast(r.i64, FitsU64)),
      When(kind == Some(6), ThreadingMode(meta, r)),
      When(kind == Some(6), meta.recvBufferKb),
      When(kind == Some(0), FillNull(Cast(r.leafCount, FitsU32), 1)),
      When(kind == Some(0), FillNull(e.shape, "scalar")),
      When(In(kind, {0, 1}), Cast(r.bytes, FitsI64)))
  }

  function OnePass(meta: Meta, rows: seq<Raw>): seq<Row> {
    var es := Join(meta, rows);
    seq(|es|, i requires 0 <= i < |es| => OnePassRow(meta, es[i]))
  }

  // ----- they agree -----

  predicate Known(kind: Option<int>) { kind.Some? && 0 <= kind.value < KINDS }

  predicate QosFits(r: Raw) { In(r.kind, {0, 1, 2}) ==> StrictCastOk(r.qos, FitsI8) }

  /** Row by row, the case distinctions select what the projection of the row's kind selects. */
  lemma SameRow(k: nat, meta: Meta, e: Enriched)
    requires IsKind(e, k) && k < KINDS && QosFits(e.raw)
    ensures OnePassRow(meta, e) == KindRow(k, meta, e)
  {
  }

  function If<T>(c: bool, r: T): multiset<T> { if c then multiset{r} else multiset{} }

  predicate KindBelow(e: Enriched, k: nat) { e.raw.kind.Some? && 0 <= e.raw.kind.value < k }

  /** One more raw row adds its row to the projection of its kind, and to no other. */
  lemma {:induction false} ProjectionsOneMore(es: seq<Enriched>, k: nat, meta: Meta)
    requires es != [] && k <= KINDS && QosFits(es[|es| - 1].raw)
    ensures
      var e := es[|es| - 1];
      multiset(Projections(es, k, meta)) ==
        multiset(Projections(es[..|es| - 1], k, meta)) + If(KindBelow(e, k), OnePassRow(meta, e))
  {
    hide OnePassRow, QosFits, Project, If, KindRow;
    var e, before := es[|es| - 1], es[..|es| - 1];
    var row := OnePassRow(meta, e);
    if k == 0 {
      assert Projections(es, 0, meta) == Projections(before, 0, meta);
      NoneAdded(multiset(Projections(before, 0, meta)), row);
    } else {
      ProjectionsOneMore(es, k - 1, meta);
      ProjectOneMore(es, k - 1, meta);
      Concatenated(Projections(es, k - 1, meta), Project(es, k - 1, meta));
      Concatenated(Projections(before, k - 1, meta), Project(before, k - 1, meta));
      assert KindBelow(e, k) == (KindBelow(e, k - 1) || IsKind(e, k - 1));
      Regroup(multiset(Projections(es, k - 1, meta)), multiset(Project(es, k - 1, meta)),
              multiset(Projections(before, k - 1, meta)), multiset(Project(before, k - 1, meta)),
              KindBelow(e, k - 1), IsKind(e, k - 1), row);
    }
  }

  lemma NoneAdded<T>(a: multiset<T>, r: T)
    ensures a + If(false, r) == a
  {
  }

  lemma Regroup<T>(a: multiset<T>, b: multiset<T>, a': multiset<T>, b': multiset<T>, c: bool, d: bool, r: T)
    requires a == a' + If(c, r) && b == b' + If(d, r) && !(c && d)
    ensures a + b == (a' + b') + If(c || d, r)
  {
  }

  lemma Concatenated(a: seq<Row>, b: seq<Row>)
    ensures multiset(a + b) == multiset(a) + multiset(b)
  {
  }

  lemma ProjectOneMore(es: seq<Enriched>, k: nat, meta: Meta)
    requires es != [] && k < KINDS && QosFits(es[|es| - 1].raw)
    ensures
      var e := es[|es| - 1];
      multiset(Project(es, k, meta)) == multiset(Project(es[..|es| - 1], k, meta))
        + If(IsKind(e, k), OnePassRow(meta, e))
  {
    hide OnePassRow, KindRow, QosFits;
    var e := es[|es| - 1];
    if IsKind(e, k) {
      SameRow(k, meta, e);
    }
  }

  function OnePassKnown(meta: Meta, es: seq<Enriched>): multiset<Row> {
    if es == [] then multiset{}
    else OnePassKnown(meta, es[..|es| - 1]) + If(Known(es[|es| - 1].raw.kind), OnePassRow(meta, es[|es| - 1]))
  }

  /** The twelve projections hold exactly the one-pass rows of known kinds. */
  lemma {:induction false} ProjectionsAreKnownRows(es: seq<Enriched>, meta: Meta)
    requires forall i :: 0 <= i < |es| ==> QosFits(es[i].raw)
    ensures multiset(Projections(es, KINDS, meta)) == OnePassKnown(meta, es)
  {
    hide OnePassRow, QosFits;
    if es == [] {
      NoProjections(KINDS, meta);
    } else {
      ProjectionsAreKnownRows(es[..|es| - 1], meta);
      ProjectionsOneMore(es, KINDS, meta);
    }
  }

  lemma {:induction false} NoProjections(k: nat, meta: Meta)
    ensures Projections([], k, meta) == []
  {
    if k > 0 {
      NoProjections(k - 1, meta);
    }
  }

  lemma {:induction false} AllKnownRows(es: seq<Enriched>, meta: Meta)
    requires forall i :: 0 <= i < |es| ==> Known(es[i].raw.kind)
    ensures OnePassKnown(meta, es) == multiset(seq(|es|, i requires 0 <= i < |es| => OnePassRow(meta, es[i])))
  {
    hide OnePassRow;
    if es != [] {
      var n := |es| - 1;
      AllKnownRows(es[..n], meta);
      assert seq(|es|, i requires 0 <= i < |es| => OnePassRow(meta, es[i]))
          == seq(n, i requires 0 <= i < n => OnePassRow(meta, es[..n][i])) + [OnePassRow(meta, es[n])];
    }
  }

  lemma {:induction false} SizeOfKnownRows(es: seq<Enriched>, meta: Meta)
    ensures |OnePassKnown(meta, es)| <= |es|
    ensures |OnePassKnown(meta, es)| == |es| ==> forall i :: 0 <= i < |es| ==> Known(es[i].raw.kind)
  {
    hide OnePassRow;
    if es != [] {
      SizeOfKnownRows(es[..|es| - 1], meta);
    }
  }

  lemma CastsOk(es: seq<Enriched>)
    ensures (forall k: nat :: k < KINDS ==> ProjectionOk(es, k)) <==> forall i :: 0 <= i < |es| ==> QosFits(es[i].raw)
  {
    if forall k: nat :: k < KINDS ==> ProjectionOk(es, k) {
      forall i | 0 <= i < |es| ensures QosFits(es[i].raw) {
        if In(es[i].raw.kind, {0, 1, 2}) {
          assert ProjectionOk(es, es[i].raw.kind.value);
        }
      }
    }
  }

  /** The one-pass projection yields the rows of the twelve-pass form, as a multiset, exactly when
      every row is of a known kind and no qos value of a write, receive or skip overflows a byte. */
  lemma OnePassIsTwelvePass(meta: Meta, rows: seq<Raw>)
    ensures
      (TwelvePass(meta, rows).Some? && multiset(TwelvePass(meta, rows).value) == multiset(OnePass(meta, rows)))
      <==> (forall i :: 0 <= i < |rows| ==> Known(rows[i].kind) && QosFits(rows[i]))
  {
    hide OnePassRow, QosFits, ProjectionOk, Projections, Known;
    var es := Join(meta, rows);
    JoinKeepsRows(meta, rows);
    CastsOk(es);
    assert forall i :: 0 <= i < |rows| ==> es[i].raw == rows[i];
    if forall i :: 0 <= i < |es| ==> QosFits(es[i].raw) {
      ProjectionsAreKnownRows(es, meta);
      if forall i :: 0 <= i < |es| ==> Known(es[i].raw.kind) {
        AllKnownRows(es, meta);
      }
      SizeOfKnownRows(es, meta);
    }
  }
}
