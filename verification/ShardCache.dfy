/** The per-shard analysis cache: source files, shards, sidecars and the global sentinel with its
    index. A run may be killed between any two disk operations, and workers interleave freely.
    Assumed of the environment: a source is not edited while a run builds its shard, directory
    wipes and renames are atomic, unlinking works, every source write gets a modification time
    above all earlier ones, and a compact file is not removed while its JSONL sibling stays. */
module ShardCache {
  import opened Options

  type Stem = string
  type Version = nat

  datatype Format = Jsonl | Compact

  /** A row of a shard; the identity columns of a JSONL line may be null. */
  datatype Row = Row(variant: Option<string>, run: Option<string>, event: Option<string>, body: int)

  /** A JSONL file carries complete rows; a compact file carries the identity once. */
  datatype Content =
    | JsonlContent(rows: seq<Row>)
    | CompactContent(variant: string, run: string, events: seq<(Option<string>, int)>)
  {
    function Rows(): seq<Row> {
      match this
      case JsonlContent(rows) => rows
      case CompactContent(variant, run, events) =>
        seq(|events|, i requires 0 <= i < |events| => Row(Some(variant), Some(run), events[i].0, events[i].1))
    }
  }

  datatype Source = Source(content: Content, mtime: int)

  datatype ShardMeta = ShardMeta(
    mtime: int, rowCount: nat, version: Version,
    variant: Option<string>, run: Option<string>, isClockSync: Option<bool>)

  /** A shard cut short, or the complete projection of `content` under `version`. */
  datatype Shard = Torn | Whole(version: Version, content: Content)

  /** `shards` is `None` for a sentinel written before the index existed. */
  datatype Sentinel = Sentinel(version: Version, shards: Option<map<Stem, ShardMeta>>)

  /** `schema` is the newest code version that has run, `clock` bounds all modification times.
      An unreadable sidecar is `None`. */
  datatype Disk = Disk(
    files: map<(Stem, Format), Source>,
    sentinel: Option<Sentinel>, sidecars: map<Stem, Option<ShardMeta>>, shards: map<Stem, Shard>,
    schema: Version, clock: int)

  // ----- discovery -----

  /** The source of a stem: its compact file if there is one. */
  function SourceOf(files: map<(Stem, Format), Source>, s: Stem): Option<Source> {
    if (s, Compact) in files then Some(files[(s, Compact)])
    else if (s, Jsonl) in files then Some(files[(s, Jsonl)])
    else None
  }

  function Stems(files: map<(Stem, Format), Source>): set<Stem> { set f | f in files :: f.0 }

  /** `discover_sources`: JSONL files first, compact files over them. */
  method DiscoverSources(files: map<(Stem, Format), Source>) returns (sources: map<Stem, Source>)
    ensures sources.Keys == Stems(files)
    ensures forall s :: s in sources ==> SourceOf(files, s) == Some(sources[s])
  {
    sources := map[];
    var todo := files.Keys;
    while todo != {}
      invariant todo <= files.Keys
      invariant forall s :: s in sources <==> (s, Jsonl) in files && (s, Jsonl) !in todo
      invariant forall s :: s in sources ==> sources[s] == files[(s, Jsonl)]
      decreases todo
    {
      var f :| f in todo;
      todo := todo - {f};
      if f.1 == Jsonl {
        sources := sources[f.0 := files[f]];
      }
    }
    todo := files.Keys;
    while todo != {}
      invariant todo <= files.Keys
      invariant forall s :: s in sources <==> (s, Jsonl) in files || ((s, Compact) in files && (s, Compact) !in todo)
      invariant forall s :: s in sources ==>
        sources[s] == if (s, Compact) in files && (s, Compact) !in todo then files[(s, Compact)] else files[(s, Jsonl)]
      decreases todo
    {
      var f :| f in todo;
      todo := todo - {f};
      if f.1 == Compact {
        sources := sources[f.0 := files[f]];
      }
    }
    forall s ensures s in sources <==> s in Stems(files) {
      StemHasSource(files, s);
    }
  }

  // ----- metadata -----

  const BATCH_ROWS: nat := 100_000

  datatype Identity = Identity(variant: Option<string>, run: Option<string>, isClockSync: Option<bool>)

  function Text(s: Option<string>): string { if s.Some? then s.value else "" }

  /** `_build_shard`: the flag of a first row, unknown if it has neither event nor variant. */
  function BuildFlag(first: Row): Option<bool> {
    if first.event.None? && first.variant.None? then None
    else
      Some(Text(first.event) == "clock_sync" || Text(first.event) == "clock_sync_sample" || Text(first.variant) == "")
  }

  /** `_backfill_index_fields`: a row that says nothing leaves the flag of the entry. */
  function BackfillFlag(known: Option<bool>, first: Row): Option<bool> {
    if first.event.Some? || first.variant.Some? then
      Some(Text(first.event) in {"clock_sync", "clock_sync_sample"} || Text(first.variant) == "")
    else known
  }

  /** `_is_clocksync_shard`: the probe of a shard whose flag the index does not know. */
  function ProbeFlag(rows: seq<Row>): bool {
    if rows == [] then false
    else if rows[0].event == Some("clock_sync") || rows[0].event == Some("clock_sync_sample") then true
    else rows[0].variant.None? || rows[0].variant.value == ""
  }

  /** What all three go by: the row is of a clock-sync kind, or has no variant, or an empty one. */
  predicate IsSyncRow(row: Row) {
    row.event in {Some("clock_sync"), Some("clock_sync_sample")} || row.variant in {None, Some("")}
  }

  /** A build, a backfill and the probe agree. They part only on a first row with neither event nor
      variant: then the first two do not know, and the probe calls the shard a clock-sync shard. */
  lemma FlagsAgree(rows: seq<Row>, known: Option<bool>)
    ensures ProbeFlag(rows) <==> rows != [] && IsSyncRow(rows[0])
    ensures rows != [] && (rows[0].event.Some? || rows[0].variant.Some?) ==>
      BuildFlag(rows[0]) == BackfillFlag(known, rows[0]) == Some(ProbeFlag(rows))
    ensures rows != [] && rows[0].event.None? && rows[0].variant.None? ==>
      BuildFlag(rows[0]) == None && BackfillFlag(known, rows[0]) == known && ProbeFlag(rows)
  {
    assert Some("clock_sync").value == "clock_sync" && Some("clock_sync_sample").value == "clock_sync_sample";
  }

  function Or<T>(a: Option<T>, b: Option<T>): Option<T> { if a.Some? then a else b }

  /** Take from a first row what it has. */
  function Seen(id: Identity, first: Row): Identity {
    Identity(Or(first.variant, id.variant), Or(first.run, id.run), Or(BuildFlag(first), id.isClockSync))
  }

  /** The batch loop: the first row of each batch is looked at until a variant is known. */
  function Recovered(rows: seq<Row>, id: Identity): Identity
    decreases |rows|
  {
    if rows == [] then id
    else
      var batch := if |rows| < BATCH_ROWS then |rows| else BATCH_ROWS;
      Recovered(rows[batch..], if id.variant.None? then Seen(id, rows[0]) else id)
  }

  lemma {:induction false} KnownVariantStays(rows: seq<Row>, id: Identity)
    requires id.variant.Some?
    ensures Recovered(rows, id) == id
    decreases |rows|
  {
    if rows != [] {
      KnownVariantStays(rows[if |rows| < BATCH_ROWS then |rows| else BATCH_ROWS..], id);
    }
  }

  /** The first row of batch `k`, if the source goes that far. */
  function Head(rows: seq<Row>, k: nat): Option<Row> {
    if k * 100_000 < |rows| then Some(rows[k * 100_000]) else None
  }

  /** The variant is that of the first head that has one. The run is the last one given by a head up
      to there; the flag is read off that head. */
  lemma {:induction false} FirstHeadWithVariantDecides(rows: seq<Row>, id: Identity, k: nat)
    requires id.variant.None? && Head(rows, k).Some? && Head(rows, k).value.variant.Some?
    requires forall j :: 0 <= j < k ==> Head(rows, j).Some? && Head(rows, j).value.variant.None?
    ensures var got, head := Recovered(rows, id), Head(rows, k).value;
      && got.variant == head.variant && got.isClockSync == Some(IsSyncRow(head))
      && (head.run.Some? ==> got.run == head.run)
    decreases k
  {
    var rest := rows[if |rows| < BATCH_ROWS then |rows| else BATCH_ROWS..];
    FlagsAgree([rows[0]], None);
    if k == 0 {
      KnownVariantStays(rest, Seen(id, rows[0]));
    } else {
      assert Head(rows, 0).value == rows[0];
      assert forall j :: 0 <= j < k ==> Head(rest, j) == Head(rows, j + 1);
      FirstHeadWithVariantDecides(rest, Seen(id, rows[0]), k - 1);
    }
  }

  /** Without a variant in any head there is none, and the flag is true once a head has an event. */
  lemma {:induction false} NoHeadWithVariant(rows: seq<Row>, id: Identity)
    requires id.variant.None?
    requires forall j: nat :: Head(rows, j).Some? ==> Head(rows, j).value.variant.None?
    ensures Recovered(rows, id).variant.None?
    ensures Recovered(rows, id).isClockSync ==
      if exists j: nat :: Head(rows, j).Some? && Head(rows, j).value.event.Some? then Some(true) else id.isClockSync
    decreases |rows|
  {
    if rows != [] {
      var rest := rows[if |rows| < BATCH_ROWS then |rows| else BATCH_ROWS..];
      assert Head(rows, 0).value == rows[0];
      assert forall j: nat :: Head(rest, j) == Head(rows, j + 1);
      assert forall j: nat :: j > 0 ==> Head(rows, j) == Head(rest, j - 1);
      NoHeadWithVariant(rest, Seen(id, rows[0]));
    }
  }

  function IdentityOf(content: Content): Identity {
    match content
    case JsonlContent(rows) => Recovered(rows, Identity(None, None, None))
    case CompactContent(variant, run, _) =>
      var rows := content.Rows();
      Identity(Some(variant), Some(run), if rows == [] then None else BuildFlag(rows[0]))
  }

  /** The metadata a build of `src` under `v` produces. */
  function FreshMeta(v: Version, src: Source): ShardMeta {
    var id := IdentityOf(src.content);
    ShardMeta(src.mtime, |src.content.Rows()|, v, id.variant, id.run, id.isClockSync)
  }

  /** What `_build_shard` collects while it goes through the batches of a source, and its metadata. */
  method CollectMeta(v: Version, src: Source) returns (m: ShardMeta)
    ensures m == FreshMeta(v, src)
  {
    var rows := src.content.Rows();
    var variant: Option<string>, run: Option<string>, isClockSync: Option<bool> := None, None, None;
    var rowCount := 0;
    if src.content.JsonlContent? {
      var rest := rows;
      while rest != []
        invariant rowCount + |rest| == |rows|
        invariant Recovered(rest, Identity(variant, run, isClockSync)) == Recovered(rows, Identity(None, None, None))
        decreases |rest|
      {
        var height := if |rest| < BATCH_ROWS then |rest| else BATCH_ROWS;
        if variant.None? {
          var first := rest[0];
          if first.variant.Some? { variant := first.variant; }
          if first.run.Some? { run := first.run; }
          if first.event.Some? || first.variant.Some? { isClockSync := BuildFlag(first); }
        }
        rowCount := rowCount + height;
        rest := rest[height..];
      }
    } else {
      variant, run, rowCount := Some(src.content.variant), Some(src.content.run), |rows|;
      if rowCount > 0 { isClockSync := BuildFlag(rows[0]); }
    }
    m := ShardMeta(src.mtime, rowCount, v, variant, run, isClockSync);
  }

  /** `_backfill_index_fields` for one entry. */
  function Backfill(m: ShardMeta, shard: Option<Shard>): ShardMeta {
    if m.variant.Some? && m.run.Some? && m.isClockSync.Some? then m
    else if shard.None? || shard.value.Torn? || shard.value.content.Rows() == [] then m
    else
      var first := shard.value.content.Rows()[0];
      m.(variant := Or(first.variant, m.variant), run := Or(first.run, m.run),
         isClockSync := BackfillFlag(m.isClockSync, first))
  }

  /** The metadata a run leaves in the index for a freshly built shard. */
  function IndexMeta(v: Version, src: Source): ShardMeta {
    Backfill(FreshMeta(v, src), Some(Whole(v, src.content)))
  }

  predicate Agrees<T(==)>(a: Option<T>, b: Option<T>) { a.None? || a == b }

  /** An entry older than the identity columns: what it says agrees with a fresh build. */
  predicate IsLegacy(m: ShardMeta, v: Version, src: Source) {
    var f, rows := FreshMeta(v, src), src.content.Rows();
    && rows != [] && rows[0].variant.Some?
    && m == f.(variant := m.variant, run := m.run, isClockSync := m.isClockSync)
    && Agrees(m.variant, f.variant) && Agrees(m.run, f.run) && Agrees(m.isClockSync, f.isClockSync)
  }

  /** `m` describes `src`: a sidecar's entry, an index entry, or a legacy one. */
  predicate Describes(m: ShardMeta, v: Version, src: Source) {
    m == FreshMeta(v, src) || m == IndexMeta(v, src) || IsLegacy(m, v, src)
  }

  /** Entries of the sentinel's index that were written by this version. */
  function IndexEntry(d: Disk, v: Version, s: Stem): Option<ShardMeta> {
    if d.sentinel.Some? && d.sentinel.value.shards.Some? && s in d.sentinel.value.shards.value
       && d.sentinel.value.shards.value[s].version == v
    then Some(d.sentinel.value.shards.value[s]) else None
  }

  /** The entry a run goes by: the index, and the sidecar only if the index lacks the stem. */
  function Effective(d: Disk, v: Version, s: Stem): Option<ShardMeta> {
    if IndexEntry(d, v, s).Some? then IndexEntry(d, v, s)
    else if s in d.sidecars then d.sidecars[s]
    else None
  }

  predicate IsStale(d: Disk, v: Version, s: Stem, src: Source) {
    var m := Effective(d, v, s);
    m.None? || m.value.version != v || s !in d.shards || m.value.mtime < src.mtime
  }

  /** Backfilling an entry that describes a source gives the index entry of a fresh build, and
      backfilling that changes nothing more. */
  lemma BackfillCompletes(m: ShardMeta, v: Version, src: Source)
    requires Describes(m, v, src)
    ensures Backfill(m, Some(Whole(v, src.content))) == IndexMeta(v, src)
    ensures IndexMeta(v, src).mtime == src.mtime && IndexMeta(v, src).version == v
  {
    if IsLegacy(m, v, src) {
      FirstVariantDecides(src.content);
    }
  }

  /** A first row with a variant settles the identity. */
  lemma FirstVariantDecides(content: Content)
    requires content.Rows() != [] && content.Rows()[0].variant.Some?
    ensures IdentityOf(content) == Seen(Identity(None, None, None), content.Rows()[0])
  {
    if content.JsonlContent? {
      var rows := content.rows;
      KnownVariantStays(rows[if |rows| < BATCH_ROWS then |rows| else BATCH_ROWS..],
        Seen(Identity(None, None, None), rows[0]));
    }
  }

  /** An entry read off the source itself: the flag, variant and run from its first row. */
  predicate ReadsOff(m: ShardMeta, v: Version, src: Source) {
    var rows := src.content.Rows();
    && m.mtime == src.mtime && m.version == v && m.rowCount == |rows|
    && (rows != [] && rows[0].variant.Some? ==>
          && m.variant == rows[0].variant && m.run == rows[0].run
          && m.isClockSync == Some(IsSyncRow(rows[0])))
  }

  lemma IndexMetaReadsOff(v: Version, src: Source)
    ensures ReadsOff(IndexMeta(v, src), v, src) && ReadsOff(FreshMeta(v, src), v, src)
  {
    var rows := src.content.Rows();
    if rows != [] && rows[0].variant.Some? {
      FirstVariantDecides(src.content);
      FlagsAgree(rows, None);
    }
  }

  /** Which entries are stale, and which are kept: an entry of this version in the sentinel's index
      goes before the sidecar; it is stale if its shard is missing or its source is newer. */
  lemma StaleExactlyWhen(d: Disk, v: Version, s: Stem, src: Source)
    ensures
      var sidecar := if s in d.sidecars then d.sidecars[s] else None;
      var gone := s !in d.shards;
      match d.sentinel
      case Some(Sentinel(_, Some(index))) =>
        if s in index && index[s].version == v then
          && (IsStale(d, v, s, src) <==> gone || index[s].mtime < src.mtime)
          && Effective(d, v, s) == Some(index[s])
        else
          && (IsStale(d, v, s, src) <==>
              sidecar.None? || sidecar.value.version != v || gone || sidecar.value.mtime < src.mtime)
          && Effective(d, v, s) == sidecar
      case _ =>
        && (IsStale(d, v, s, src) <==>
            sidecar.None? || sidecar.value.version != v || gone || sidecar.value.mtime < src.mtime)
        && Effective(d, v, s) == sidecar
  {
  }

  // ----- the invariant -----

  /** A fresh-looking effective entry can be believed: the shard is there, complete, and projected
      from the current source by the current version. */
  predicate Believable(d: Disk, s: Stem) {
    var m, src := Effective(d, d.schema, s), SourceOf(d.files, s);
    m.Some? && m.value.version == d.schema && src.Some? && m.value.mtime >= src.value.mtime ==>
      s in d.shards && d.shards[s] == Whole(d.schema, src.value.content) && Describes(m.value, d.schema, src.value)
  }

  ghost predicate Inv(d: Disk) {
    && (forall f :: f in d.files ==> d.files[f].mtime <= d.clock)
    && (forall s :: s in d.sidecars && d.sidecars[s].Some? ==>
          d.sidecars[s].value.mtime <= d.clock && d.sidecars[s].value.version <= d.schema)
    && (d.sentinel.Some? ==>
          && d.sentinel.value.version <= d.schema
          && (d.sentinel.value.shards.Some? ==> forall s :: s in d.sentinel.value.shards.value ==>
                var m := d.sentinel.value.shards.value[s];
                m.mtime <= d.clock && m.version <= d.schema))
    && forall s :: Believable(d, s)
  }

  /** The cache a run from nothing would leave: one shard per discovered stem, and an index with
      the metadata of fresh builds. */
  predicate Synced(d: Disk, v: Version) {
    && d.schema == v
    && d.shards.Keys == Stems(d.files) && d.sidecars.Keys <= Stems(d.files)
    && (forall s :: s in d.shards ==>
          SourceOf(d.files, s).Some? && d.shards[s] == Whole(v, SourceOf(d.files, s).value.content))
    && d.sentinel == Some(Sentinel(v, Some(FreshMetas(d.files, v))))
  }

  /** One entry for each stem with a source, and it is read off that source. */
  ghost predicate ReadOff(metas: map<Stem, ShardMeta>, v: Version, files: map<(Stem, Format), Source>) {
    && (forall s :: s in metas <==> (s, Jsonl) in files || (s, Compact) in files)
    && (forall s :: s in metas ==>
          ReadsOff(metas[s], v, if (s, Compact) in files then files[(s, Compact)] else files[(s, Jsonl)]))
  }

  lemma FreshMetasReadOff(files: map<(Stem, Format), Source>, v: Version)
    ensures ReadOff(FreshMetas(files, v), v, files)
  {
    hide IndexMeta, ReadsOff;
    forall s ensures s in FreshMetas(files, v) <==> (s, Jsonl) in files || (s, Compact) in files {
      StemHasSource(files, s);
    }
    forall s | s in FreshMetas(files, v) ensures ReadsOff(FreshMetas(files, v)[s], v, SourceOf(files, s).value) {
      IndexMetaReadsOff(v, SourceOf(files, s).value);
    }
  }

  function FreshMetas(files: map<(Stem, Format), Source>, v: Version): map<Stem, ShardMeta> {
    map s | s in Stems(files) && SourceOf(files, s).Some? :: IndexMeta(v, SourceOf(files, s).value)
  }

  // ----- the disk operations and what they keep -----

  function Wiped(d: Disk): Disk { d.(sentinel := None, sidecars := map[], shards := map[]) }

  lemma NewDirectoryInv(files: map<(Stem, Format), Source>, v: Version, clock: int)
    requires forall f :: f in files ==> files[f].mtime <= clock
    ensures Inv(Disk(files, None, map[], map[], v, clock))
  {
  }

  /** A run starts from nothing if asked to, or if another version wrote the sentinel. */
  predicate WipesFirst(d: Disk, v: Version, clear: bool) {
    clear || (d.sentinel.Some? && d.sentinel.value.version != v)
  }

  lemma WipedIsStale(d: Disk, v: Version)
    ensures forall s, src :: IsStale(Wiped(d), v, s, src)
  {
  }

  lemma WipeKeepsInv(d: Disk)
    requires Inv(d)
    ensures Inv(Wiped(d))
  {
  }

  /** The first run of a newer code version changes no file, and believes nothing older. */
  lemma BumpKeepsInv(d: Disk, v: Version)
    requires Inv(d) && v >= d.schema
    ensures Inv(d.(schema := v))
  {
    var d' := d.(schema := v);
    forall s ensures Believable(d', s) {
      assert Believable(d, s);
      if v > d.schema {
        assert IndexEntry(d', v, s).None?;
      }
    }
  }

  function Tearing(d: Disk, s: Stem): Disk { d.(shards := d.shards[s := Torn]) }

  /** Starting to rewrite a shard is safe as long as its effective entry does not look fresh. */
  lemma TearKeepsInv(d: Disk, s: Stem, src: Source)
    requires Inv(d) && SourceOf(d.files, s) == Some(src) && IsStale(d, d.schema, s, src)
    ensures Inv(Tearing(d, s)) && IsStale(Tearing(d, s), d.schema, s, src)
  {
    var d' := Tearing(d, s);
    assert Believable(d, s);
    forall x ensures Believable(d', x) {
      assert Believable(d, x);
      assert Effective(d', d.schema, x) == Effective(d, d.schema, x);
    }
  }

  function Filled(d: Disk, s: Stem, content: Content): Disk { d.(shards := d.shards[s := Whole(d.schema, content)]) }

  lemma FillKeepsInv(d: Disk, s: Stem, src: Source)
    requires Inv(d) && SourceOf(d.files, s) == Some(src)
    ensures Inv(Filled(d, s, src.content))
  {
    var d' := Filled(d, s, src.content);
    forall x ensures Believable(d', x) {
      assert Believable(d, x);
      assert Effective(d', d.schema, x) == Effective(d, d.schema, x);
    }
  }

  function WithSidecar(d: Disk, s: Stem, m: ShardMeta): Disk { d.(sidecars := d.sidecars[s := Some(m)]) }

  /** The sidecar may be written once the shard is complete. */
  lemma SidecarKeepsInv(d: Disk, s: Stem, src: Source)
    requires Inv(d) && SourceOf(d.files, s) == Some(src)
    requires s in d.shards && d.shards[s] == Whole(d.schema, src.content)
    ensures Inv(WithSidecar(d, s, FreshMeta(d.schema, src)))
  {
    var d' := WithSidecar(d, s, FreshMeta(d.schema, src));
    forall x ensures Believable(d', x) {
      assert Believable(d, x);
      assert IndexEntry(d', d.schema, x) == IndexEntry(d, d.schema, x);
    }
  }

  function WithoutShard(d: Disk, s: Stem): Disk { d.(shards := d.shards - {s}) }

  function WithoutSidecar(d: Disk, s: Stem): Disk { d.(sidecars := d.sidecars - {s}) }

  lemma UnlinkKeepsInv(d: Disk, s: Stem)
    requires Inv(d) && SourceOf(d.files, s).None?
    ensures Inv(WithoutShard(d, s)) && Inv(WithoutSidecar(d, s))
  {
    forall x ensures Believable(WithoutShard(d, s), x) && Believable(WithoutSidecar(d, s), x) {
      assert Believable(d, x);
      assert Effective(WithoutShard(d, s), d.schema, x) == Effective(d, d.schema, x);
      assert IndexEntry(WithoutSidecar(d, s), d.schema, x) == IndexEntry(d, d.schema, x);
    }
  }

  function Committed(d: Disk, metas: map<Stem, ShardMeta>): Disk {
    d.(sentinel := Some(Sentinel(d.schema, Some(metas))))
  }

  /** The sentinel may be replaced once every shard is complete and all orphans are gone: a stem
      that leaves the index has no sidecar left to fall back to. */
  lemma CommitKeepsInv(d: Disk, metas: map<Stem, ShardMeta>)
    requires Inv(d) && metas == FreshMetas(d.files, d.schema)
    requires d.sidecars.Keys <= Stems(d.files)
    requires forall s :: s in Stems(d.files) && SourceOf(d.files, s).Some? ==>
      s in d.shards && d.shards[s] == Whole(d.schema, SourceOf(d.files, s).value.content)
    ensures Inv(Committed(d, metas))
  {
    var d' := Committed(d, metas);
    forall s ensures Believable(d', s) {
      StemHasSource(d.files, s);
    }
  }

  lemma StemHasSource(files: map<(Stem, Format), Source>, s: Stem)
    ensures s in Stems(files) <==> SourceOf(files, s).Some?
  {
    if (s, Compact) in files { assert (s, Compact).0 in Stems(files); }
    if (s, Jsonl) in files { assert (s, Jsonl).0 in Stems(files); }
    if f :| f in files && f.0 == s {
      assert f == (s, f.1) && (f.1 == Jsonl || f.1 == Compact);
    }
  }

  lemma EffectiveAfterBuildStep(d: Disk, v: Version, s: Stem, content: Content, m: ShardMeta)
    ensures forall x :: Effective(Tearing(d, s), v, x) == Effective(d, v, x)
    ensures forall x :: Effective(Filled(d, s, content), v, x) == Effective(d, v, x)
    ensures forall x :: x != s ==> Effective(WithSidecar(d, s, m), v, x) == Effective(d, v, x)
  {
    forall x | x != s ensures Effective(WithSidecar(d, s, m), v, x) == Effective(d, v, x) {
      assert IndexEntry(WithSidecar(d, s, m), v, x) == IndexEntry(d, v, x);
    }
  }

  /** In a synced cache no stem is stale: a repeated run has nothing to build. */
  lemma SyncedIsFresh(d: Disk, v: Version, sources: map<Stem, Source>)
    requires Synced(d, v) && sources.Keys == Stems(d.files)
    requires forall s :: s in sources ==> SourceOf(d.files, s) == Some(sources[s])
    ensures forall s :: s in sources ==> !IsStale(d, v, s, sources[s])
    ensures d.sentinel.Some? && d.sentinel.value.version == v && d.schema == v
  {
    forall s | s in sources ensures !IsStale(d, v, s, sources[s]) {
      assert IndexEntry(d, v, s) == Some(IndexMeta(v, sources[s]));
    }
  }

  // ----- update_cache -----

  /** What every point of a run guarantees: sources untouched, the invariant kept. */
  ghost predicate Intact(before: Disk, d: Disk, v: Version) {
    Inv(d) && d.files == before.files && d.clock == before.clock && d.schema == v
  }

  /** Same shard, or none, on both disks. */
  predicate SameShard(d: Disk, e: Disk, s: Stem) {
    (s in d.shards <==> s in e.shards) && (s in d.shards ==> d.shards[s] == e.shards[s])
  }

  predicate Complete(d: Disk, v: Version, s: Stem, src: Source) {
    s in d.shards && d.shards[s] == Whole(v, src.content)
  }

  /** How far a run's rebuilding has come: stale stems wait, are being written, or wait for their
      sidecar; the rest of them are built. */
  datatype Progress = Progress(waiting: set<Stem>, started: set<Stem>, filled: set<Stem>, built: map<Stem, ShardMeta>) {
    function Left(): set<Stem> { waiting + started + filled }
  }

  ghost predicate Building(before: Disk, d: Disk, v: Version, sources: map<Stem, Source>, stale: set<Stem>,
                           p: Progress) {
    && Intact(before, d, v) && d.sentinel == before.sentinel
    && stale <= sources.Keys
    && (forall s :: s in sources ==> SourceOf(d.files, s) == Some(sources[s]))
    && p.waiting !! p.started && p.waiting !! p.filled && p.started !! p.filled && p.built.Keys !! p.Left()
    && p.Left() + p.built.Keys == stale
    && (forall s :: s in p.waiting ==> IsStale(d, v, s, sources[s]))
    && (forall s :: s in p.filled || s in p.built ==> Complete(d, v, s, sources[s]))
    && (forall s :: s in p.built ==> p.built[s] == FreshMeta(v, sources[s]))
    && (forall s :: s !in stale ==> SameShard(d, before, s))
    && d.sidecars.Keys <= before.sidecars.Keys + stale
  }

  lemma TearStep(before: Disk, d: Disk, v: Version, sources: map<Stem, Source>, stale: set<Stem>, p: Progress, s: Stem)
    requires Building(before, d, v, sources, stale, p) && s in p.waiting
    ensures Building(before, Tearing(d, s), v, sources, stale,
      p.(waiting := p.waiting - {s}, started := p.started + {s}))
  {
    hide Inv, Effective;
    TearKeepsInv(d, s, sources[s]);
    EffectiveAfterBuildStep(d, v, s, sources[s].content, FreshMeta(v, sources[s]));
  }

  lemma FillStep(before: Disk, d: Disk, v: Version, sources: map<Stem, Source>, stale: set<Stem>, p: Progress, s: Stem)
    requires Building(before, d, v, sources, stale, p) && s in p.started
    ensures Building(before, Filled(d, s, sources[s].content), v, sources, stale,
      p.(started := p.started - {s}, filled := p.filled + {s}))
  {
    hide Inv, Effective;
    FillKeepsInv(d, s, sources[s]);
    EffectiveAfterBuildStep(d, v, s, sources[s].content, FreshMeta(v, sources[s]));
  }

  lemma SidecarStep(before: Disk, d: Disk, v: Version, sources: map<Stem, Source>, stale: set<Stem>, p: Progress,
                    s: Stem)
    requires Building(before, d, v, sources, stale, p) && s in p.filled
    ensures Building(before, WithSidecar(d, s, FreshMeta(v, sources[s])), v, sources, stale,
      p.(filled := p.filled - {s}, built := p.built[s := FreshMeta(v, sources[s])]))
  {
    hide Inv, Effective, FreshMeta;
    SidecarKeepsInv(d, s, sources[s]);
    EffectiveAfterBuildStep(d, v, s, sources[s].content, FreshMeta(v, sources[s]));
  }

  /** A stem that was not stale has a complete shard, and backfilling completes its entry. */
  lemma KeptEntryIsRight(d: Disk, s: Stem, src: Source)
    requires Inv(d) && SourceOf(d.files, s) == Some(src) && !IsStale(d, d.schema, s, src)
    ensures Complete(d, d.schema, s, src)
    ensures Backfill(Effective(d, d.schema, s).value, Some(d.shards[s])) == IndexMeta(d.schema, src)
  {
    assert Believable(d, s);
    BackfillCompletes(Effective(d, d.schema, s).value, d.schema, src);
  }

  predicate Discovered(d: Disk, sources: map<Stem, Source>) {
    sources.Keys == Stems(d.files) && forall s :: s in sources ==> SourceOf(d.files, s) == Some(sources[s])
  }

  /** The stems split into those whose entry is kept and those whose shard must be rebuilt. */
  predicate Partitioned(d: Disk, v: Version, sources: map<Stem, Source>, kept: map<Stem, ShardMeta>, stale: set<Stem>) {
    && stale == (set s | s in sources && IsStale(d, v, s, sources[s]))
    && kept.Keys == sources.Keys - stale
    && (forall s :: s in kept ==> Effective(d, v, s) == Some(kept[s]))
  }

  predicate Backfilled(d: Disk, metas: map<Stem, ShardMeta>, upgraded: map<Stem, ShardMeta>) {
    && upgraded.Keys == metas.Keys
    && forall s :: s in metas ==> upgraded[s] == Backfill(metas[s], if s in d.shards then Some(d.shards[s]) else None)
  }

  lemma BuildingStarts(d: Disk, v: Version, sources: map<Stem, Source>, kept: map<Stem, ShardMeta>, stale: set<Stem>)
    requires Inv(d) && d.schema == v && Discovered(d, sources) && Partitioned(d, v, sources, kept, stale)
    ensures Building(d, d, v, sources, stale, Progress(stale, {}, {}, map[]))
  {
    hide Inv, IsStale, Effective;
  }

  lemma EntriesAgree(start: Disk, mid: Disk, d: Disk, v: Version, sources: map<Stem, Source>, stale: set<Stem>,
                     kept: map<Stem, ShardMeta>, built: map<Stem, ShardMeta>, metas: map<Stem, ShardMeta>)
    requires Inv(start) && start.schema == v && Discovered(start, sources)
      && Partitioned(start, v, sources, kept, stale)
    requires Building(start, mid, v, sources, stale, Progress({}, {}, {}, built))
    requires forall s :: s in sources ==> SameShard(d, mid, s)
    requires Backfilled(d, kept + built, metas)
    ensures forall s :: s in sources ==> Complete(d, v, s, sources[s])
    ensures metas == FreshMetas(start.files, v)
  {
    hide Inv, IsStale, FreshMeta, IndexMeta, Backfill, Effective, SourceOf, Intact;
    forall s | s in sources ensures s in metas && metas[s] == IndexMeta(v, sources[s])
      && Complete(d, v, s, sources[s]) {
      if s in stale {
        BackfillCompletes(built[s], v, sources[s]);
      } else {
        KeptEntryIsRight(start, s, sources[s]);
      }
    }
    assert metas.Keys == FreshMetas(start.files, v).Keys;
  }

  /** Committing complete shards with the right entries leaves a synced, believable cache. */
  lemma CommitSyncs(d: Disk, sources: map<Stem, Source>, metas: map<Stem, ShardMeta>)
    requires Inv(d) && Discovered(d, sources) && metas == FreshMetas(d.files, d.schema)
    requires d.shards.Keys <= sources.Keys && d.sidecars.Keys <= sources.Keys
    requires forall s :: s in sources ==> Complete(d, d.schema, s, sources[s])
    ensures Inv(Committed(d, metas)) && Synced(Committed(d, metas), d.schema)
  {
    hide Inv, FreshMetas, FreshMeta;
    forall s | s in Stems(d.files) && SourceOf(d.files, s).Some?
      ensures Complete(d, d.schema, s, SourceOf(d.files, s).value)
    {
    }
    CommitKeepsInv(d, metas);
  }

  /** After the builds (`built`) and the orphan removal (`d`), kept and rebuilt entries together are
      the entries of a run from nothing. */
  lemma RunAgrees(start: Disk, mid: Disk, d: Disk, v: Version, sources: map<Stem, Source>, stale: set<Stem>,
                  kept: map<Stem, ShardMeta>, built: map<Stem, ShardMeta>, metas: map<Stem, ShardMeta>)
    requires Inv(start) && start.schema == v && Discovered(start, sources)
      && Partitioned(start, v, sources, kept, stale)
    requires Building(start, mid, v, sources, stale, Progress({}, {}, {}, built))
    requires Intact(mid, d, v) && d.shards.Keys <= sources.Keys && d.sidecars.Keys <= sources.Keys
    requires forall s :: s in sources ==> SameShard(d, mid, s)
    requires Backfilled(d, kept + built, metas)
    ensures Inv(Committed(d, metas)) && Synced(Committed(d, metas), v) && metas == FreshMetas(d.files, v)
  {
    EntriesAgree(start, mid, d, v, sources, stale, kept, built, metas);
    hide Inv, FreshMetas, SourceOf, Synced, Partitioned, Backfilled, Complete, IsStale;
    CommitSyncs(d, sources, metas);
  }

  // ----- the sources change -----

  function SourceWritten(d: Disk, s: Stem, format: Format, src: Source): Disk {
    d.(files := d.files[(s, format) := src], clock := src.mtime)
  }

  /** A write stamped later than everything before makes its own entry look stale, or is hidden
      behind the stem's compact file. */
  lemma SourceWriteKeepsInv(d: Disk, s: Stem, format: Format, src: Source)
    requires Inv(d) && src.mtime > d.clock
    ensures Inv(SourceWritten(d, s, format, src))
  {
    var d' := SourceWritten(d, s, format, src);
    forall x ensures Believable(d', x) {
      assert Believable(d, x);
      assert Effective(d', d.schema, x) == Effective(d, d.schema, x);
    }
  }

  function StemRemoved(d: Disk, s: Stem): Disk { d.(files := d.files - {(s, Jsonl), (s, Compact)}) }

  lemma StemRemovalKeepsInv(d: Disk, s: Stem)
    requires Inv(d)
    ensures Inv(StemRemoved(d, s))
  {
    var d' := StemRemoved(d, s);
    forall x ensures Believable(d', x) {
      assert Believable(d, x);
      assert Effective(d', d.schema, x) == Effective(d, d.schema, x);
    }
  }

  /** What happens to a logs directory. A run of code version `v` is killed after `budget` disk
      operations, or finishes. */
  datatype Event =
    | Write(stem: Stem, format: Format, src: Source)
    | Remove(stem: Stem)
    | Run(v: Version, clear: bool, budget: Option<nat>)

  /** Every write is stamped later than all before it, and code versions never go back. */
  predicate Legal(history: seq<Event>, schema: Version, clock: int) {
    history == [] ||
    match history[0]
    case Write(_, _, src) => src.mtime > clock && Legal(history[1..], schema, src.mtime)
    case Remove(_) => Legal(history[1..], schema, clock)
    case Run(v, _, _) => v >= schema && Legal(history[1..], v, clock)
  }

  /** The sources a history leaves, whatever its runs did. */
  function FilesAfter(files: map<(Stem, Format), Source>, history: seq<Event>): map<(Stem, Format), Source>
    decreases |history|
  {
    if history == [] then files
    else
      var next := match history[0]
        case Write(s, format, src) => files[(s, format) := src]
        case Remove(s) => files - {(s, Jsonl), (s, Compact)}
        case Run(_, _, _) => files;
      FilesAfter(next, history[1..])
  }

  /** The cache a finished run leaves depends on the sources and the version alone. */
  lemma SyncedIsUnique(d: Disk, e: Disk, v: Version)
    requires Synced(d, v) && Synced(e, v) && d.files == e.files
    ensures d.shards == e.shards && d.sentinel == e.sentinel
  {
    assert d.shards.Keys == e.shards.Keys;
  }

  // ----- where crash safety ends -----

  /** Tearing a believable shard is safe for version `w` exactly when `w` sees its entry as stale. */
  lemma TearIsSafeExactlyWhenStale(d: Disk, w: Version, s: Stem, src: Source)
    requires SourceOf(d.files, s) == Some(src) && Believable(d.(schema := w), s)
    ensures Believable(Tearing(d, s).(schema := w), s) <==> IsStale(d, w, s, src)
  {
    assert Effective(Tearing(d, s).(schema := w), w, s) == Effective(d, w, s);
    assert Effective(d.(schema := w), w, s) == Effective(d, w, s);
  }

  /** Versions must not go back. Version 2 finishes a shard and its sidecar and is killed before the
      sentinel; version 1 finds the shard stale, starts to rewrite it and is killed; then version 2
      takes the torn shard for a fresh one. */
  lemma OlderVersionLeavesATornShard(s: Stem, src: Source)
    ensures
      var d := Disk(map[(s, Compact) := src], None, map[], map[], 2, src.mtime);
      var killed := WithSidecar(Filled(Tearing(d, s), s, src.content), s, FreshMeta(2, src));
      Inv(d) && Inv(killed) && IsStale(killed, 1, s, src)
      && Tearing(killed, s).shards[s] == Torn && !IsStale(Tearing(killed, s), 2, s, src)
  {
    var d := Disk(map[(s, Compact) := src], None, map[], map[], 2, src.mtime);
    assert Inv(d);
    TearKeepsInv(d, s, src);
    FillKeepsInv(Tearing(d, s), s, src);
    SidecarKeepsInv(Filled(Tearing(d, s), s, src.content), s, src);
  }

  /** Shards must not be deleted by hand: the run that rebuilds one leaves it torn and trusted if it
      is killed, because the entry in the index still looks fresh. */
  lemma DeletedShardIsTrustedTorn(d: Disk, s: Stem)
    requires Synced(d, d.schema) && s in d.shards
    ensures
      var src := SourceOf(d.files, s).value;
      var deleted := WithoutShard(d, s);
      IsStale(deleted, d.schema, s, src) && Tearing(deleted, s).shards[s] == Torn
        && !IsStale(Tearing(deleted, s), d.schema, s, src)
  {
    var src := SourceOf(d.files, s).value;
    assert Effective(Tearing(WithoutShard(d, s), s), d.schema, s) == Some(IndexMeta(d.schema, src));
  }

  /** A directory wipe cut short: some shards and sidecars are gone, and perhaps the sentinel. */
  function CutWipe(d: Disk, shards: set<Stem>, sidecars: set<Stem>, sentinel: bool): Disk {
    d.(shards := d.shards - shards, sidecars := d.sidecars - sidecars,
       sentinel := if sentinel then None else d.sentinel)
  }

  /** Wipes must not be cut short: a run killed in its own wipe before the sentinel is gone has
      deleted a shard whose entry looks fresh, and a killed rebuild leaves it torn and trusted. */
  lemma CutWipeIsTrustedTorn(d: Disk, shards: set<Stem>, sidecars: set<Stem>, s: Stem)
    requires Synced(d, d.schema) && s in d.shards && s in shards
    ensures
      var src := SourceOf(d.files, s).value;
      var cut := CutWipe(d, shards, sidecars, false);
      IsStale(cut, d.schema, s, src) && Tearing(cut, s).shards[s] == Torn && !IsStale(Tearing(cut, s), d.schema, s, src)
  {
    var src := SourceOf(d.files, s).value;
    BackfillCompletes(FreshMeta(d.schema, src), d.schema, src);
    assert Effective(Tearing(CutWipe(d, shards, sidecars, false), s), d.schema, s) == Some(IndexMeta(d.schema, src));
  }

  /** What a cut wipe leaves of a stem can be believed exactly when its shard is still there, or the
      sentinel and its sidecar are both gone: metadata must go before shards. Otherwise, and only
      then, a rebuild of it that is killed is trusted torn. */
  lemma CutWipeIsSafeExactlyWhen(d: Disk, shards: set<Stem>, sidecars: set<Stem>, sentinel: bool, s: Stem)
    requires Synced(d, d.schema) && s in d.shards && s in d.sidecars
    requires d.sidecars[s] == Some(FreshMeta(d.schema, SourceOf(d.files, s).value))
    ensures Believable(CutWipe(d, shards, sidecars, sentinel), s) <==> s !in shards || (sentinel && s in sidecars)
    ensures
      var cut, src := CutWipe(d, shards, sidecars, sentinel), SourceOf(d.files, s).value;
      (IsStale(cut, d.schema, s, src) && !IsStale(Tearing(cut, s), d.schema, s, src))
      <==> s in shards && !(sentinel && s in sidecars)
  {
    var src := SourceOf(d.files, s).value;
    BackfillCompletes(FreshMeta(d.schema, src), d.schema, src);
    assert IndexEntry(d, d.schema, s) == Some(IndexMeta(d.schema, src));
  }

  /** Removing a compact file in favour of its JSONL sibling is noticed exactly when the sibling is
      the newer file. */
  lemma CompactRemovalIsSeenExactlyWhenOlder(d: Disk, s: Stem)
    requires Synced(d, d.schema) && (s, Compact) in d.files && (s, Jsonl) in d.files
    ensures
      var d' := d.(files := d.files - {(s, Compact)});
      SourceOf(d'.files, s) == Some(d.files[(s, Jsonl)])
      && (IsStale(d', d.schema, s, d.files[(s, Jsonl)]) <==> d.files[(s, Compact)].mtime < d.files[(s, Jsonl)].mtime)
  {
    assert (s, Compact).0 in Stems(d.files);
    assert Effective(d.(files := d.files - {(s, Compact)}), d.schema, s) ==
      Some(IndexMeta(d.schema, d.files[(s, Compact)]));
  }

  /** A cache directory on disk. `budget` is the number of disk operations left before the process
      is killed; `None` if it is not. */
  class LogsDir {
    var disk: Disk
    var budget: Option<nat>

    constructor (d: Disk)
      ensures disk == d && budget == None
    {
      disk, budget := d, None;
    }

    /** May one more disk operation happen? */
    method Alive() returns (alive: bool)
      modifies this`budget
      ensures old(budget).None? ==> alive && budget.None?
    {
      if budget == Some(0) {
        return false;
      }
      budget := if budget.Some? then Some(budget.value - 1) else None;
      alive := true;
    }

    /** Sort the stems into those whose entry is kept and those whose shard must be rebuilt. */
    method FindStale(v: Version, sources: map<Stem, Source>) returns (metas: map<Stem, ShardMeta>, stale: set<Stem>)
      ensures Partitioned(disk, v, sources, metas, stale)
    {
      metas, stale := map[], {};
      var todo := sources.Keys;
      while todo != {}
        invariant todo <= sources.Keys
        invariant stale == set s | s in sources && s !in todo && IsStale(disk, v, s, sources[s])
        invariant metas.Keys == sources.Keys - todo - stale
        invariant forall s :: s in metas ==> Effective(disk, v, s) == Some(metas[s])
        decreases todo
      {
        var s :| s in todo;
        todo := todo - {s};
        if IsStale(disk, v, s, sources[s]) {
          stale := stale + {s};
        } else {
          metas := metas[s := Effective(disk, v, s).value];
        }
      }
    }

    /** Rebuild the stale shards. Each goes through three operations - start the shard, finish it,
        write its sidecar - and any stale shard may be the next to move. */
    method BuildShards(v: Version, sources: map<Stem, Source>, stale: set<Stem>)
      returns (done: bool, built: map<Stem, ShardMeta>)
      requires Building(disk, disk, v, sources, stale, Progress(stale, {}, {}, map[]))
      modifies this
      ensures Intact(old(disk), disk, v) && disk.sentinel == old(disk.sentinel)
      ensures old(budget).None? ==> done && budget.None?
      ensures done ==> Building(old(disk), disk, v, sources, stale, Progress({}, {}, {}, built))
    {
      hide Inv, IsStale, FreshMeta, Tearing, Filled, WithSidecar;
      var p := Progress(stale, {}, {}, map[]);
      while p.Left() != {}
        invariant Building(old(disk), disk, v, sources, stale, p)
        invariant old(budget).None? ==> budget.None?
        decreases p.waiting, p.started, p.filled
      {
        var alive := Alive();
        if !alive {
          return false, map[];
        }
        var s :| s in p.Left();
        if s in p.waiting {
          TearStep(old(disk), disk, v, sources, stale, p, s);
          disk := Tearing(disk, s);
          p := p.(waiting := p.waiting - {s}, started := p.started + {s});
        } else if s in p.started {
          FillStep(old(disk), disk, v, sources, stale, p, s);
          disk := Filled(disk, s, sources[s].content);
          p := p.(started := p.started - {s}, filled := p.filled + {s});
        } else {
          SidecarStep(old(disk), disk, v, sources, stale, p, s);
          var m := CollectMeta(v, sources[s]);
          disk := WithSidecar(disk, s, m);
          p := p.(filled := p.filled - {s}, built := p.built[s := m]);
        }
      }
      assert p == Progress({}, {}, {}, p.built);
      done, built := true, p.built;
    }

    /** Unlink every shard and sidecar whose stem has no source, in any order. */
    method RemoveOrphanShards(valid: set<Stem>) returns (done: bool)
      requires Inv(disk) && valid == Stems(disk.files)
      modifies this
      ensures Intact(old(disk), disk, old(disk.schema)) && disk.sentinel == old(disk.sentinel)
      ensures old(budget).None? ==> done && budget.None?
      ensures done ==> disk.shards.Keys <= valid && disk.sidecars.Keys <= valid
      ensures forall s :: s in valid ==> SameShard(disk, old(disk), s)
    {
      hide Inv;
      while disk.shards.Keys + disk.sidecars.Keys - valid != {}
        invariant Intact(old(disk), disk, old(disk.schema)) && disk.sentinel == old(disk.sentinel)
        invariant old(budget).None? ==> budget.None?
        invariant forall s :: s in valid ==> SameShard(disk, old(disk), s)
        decreases disk.shards.Keys, disk.sidecars.Keys
      {
        var alive := Alive();
        if !alive {
          return false;
        }
        var s :| s in disk.shards.Keys + disk.sidecars.Keys - valid;
        StemHasSource(disk.files, s);
        UnlinkKeepsInv(disk, s);
        if s in disk.shards {
          assert WithoutShard(disk, s).shards.Keys == disk.shards.Keys - {s};
          disk := WithoutShard(disk, s);
        } else {
          assert WithoutSidecar(disk, s).sidecars.Keys == disk.sidecars.Keys - {s};
          disk := WithoutSidecar(disk, s);
        }
      }
      forall s | s in disk.shards.Keys + disk.sidecars.Keys ensures s in valid {
        assert s !in disk.shards.Keys + disk.sidecars.Keys - valid;
      }
      done := true;
    }

    method BackfillIndexFields(metas: map<Stem, ShardMeta>) returns (upgraded: map<Stem, ShardMeta>)
      ensures Backfilled(disk, metas, upgraded)
    {
      upgraded := map[];
      var todo := metas.Keys;
      while todo != {}
        invariant todo <= metas.Keys && upgraded.Keys == metas.Keys - todo
        invariant forall s :: s in upgraded ==>
          upgraded[s] == Backfill(metas[s], if s in disk.shards then Some(disk.shards[s]) else None)
        decreases todo
      {
        var s :| s in todo;
        todo := todo - {s};
        upgraded := upgraded[s := Backfill(metas[s], if s in disk.shards then Some(disk.shards[s]) else None)];
      }
    }

    /** `update_cache` under code version `v`. Wherever it is killed the invariant holds; a run that
        is not killed leaves exactly the cache a run from nothing leaves. */
    method UpdateCache(v: Version, clear: bool) returns (done: bool, metas: map<Stem, ShardMeta>, rebuilt: set<Stem>)
      requires Inv(disk) && v >= disk.schema
      modifies this
      ensures Intact(old(disk), disk, v)
      ensures old(budget).None? ==> done && budget.None?
      ensures done ==> Synced(disk, v) && metas == FreshMetas(disk.files, v)
      ensures done ==> ReadOff(metas, v, disk.files)
      ensures !clear && Synced(old(disk), v) ==> rebuilt == {}
      ensures done && (clear || (old(disk).sentinel.Some? && old(disk).sentinel.value.version != v)) ==>
        rebuilt == Stems(disk.files)
    {
      hide Inv, IsStale, FreshMeta, FreshMetas, Backfill, Effective, SourceOf, Synced, Building, Backfilled, ReadOff;
      BumpKeepsInv(disk, v);
      disk := disk.(schema := v);
      metas, rebuilt := map[], {};
      var alive := Alive();
      if !alive {
        return false, metas, rebuilt;
      }
      if WipesFirst(disk, v, clear) {
        WipeKeepsInv(disk);
        WipedIsStale(disk, v);
        disk := Wiped(disk);
      }
      var sources := DiscoverSources(disk.files);
      var kept, stale := FindStale(v, sources);
      ghost var start := disk;
      rebuilt := stale;
      if !clear && Synced(old(disk), v) {
        SyncedIsFresh(old(disk), v, sources);
      }
      BuildingStarts(disk, v, sources, kept, stale);
      var built;
      done, built := BuildShards(v, sources, stale);
      if !done {
        return;
      }
      ghost var mid := disk;
      done := RemoveOrphanShards(sources.Keys);
      if !done {
        return;
      }
      metas := BackfillIndexFields(kept + built);
      alive := Alive();
      if !alive {
        return false, metas, rebuilt;
      }
      RunAgrees(start, mid, disk, v, sources, stale, kept, built, metas);
      disk := Committed(disk, metas);
      FreshMetasReadOff(disk.files, v);
    }

    /** Any history of source writes, removals and runs, killed or not, followed by one run that is
        not killed: the cache holds exactly the fresh projections of the surviving sources. */
    method ReplayThenRun(history: seq<Event>, v: Version) returns (metas: map<Stem, ShardMeta>)
      requires Inv(disk) && Legal(history + [Run(v, false, None)], disk.schema, disk.clock)
      modifies this
      ensures Inv(disk) && disk.files == FilesAfter(old(disk.files), history)
      ensures Synced(disk, v) && metas == FreshMetas(disk.files, v)
      ensures ReadOff(metas, v, FilesAfter(old(disk.files), history))
    {
      hide Inv, Synced, FreshMetas, ReadOff;
      var rest := history;
      while rest != []
        invariant Inv(disk) && Legal(rest + [Run(v, false, None)], disk.schema, disk.clock)
        invariant FilesAfter(disk.files, rest) == FilesAfter(old(disk.files), history)
        decreases |rest|
      {
        assert (rest + [Run(v, false, None)])[1..] == rest[1..] + [Run(v, false, None)];
        match rest[0] {
          case Write(s, format, src) =>
            SourceWriteKeepsInv(disk, s, format, src);
            disk := SourceWritten(disk, s, format, src);
          case Remove(s) =>
            StemRemovalKeepsInv(disk, s);
            disk := StemRemoved(disk, s);
          case Run(w, clear, operations) =>
            budget := operations;
            var _, _, _ := UpdateCache(w, clear);
        }
        rest := rest[1..];
      }
      budget := None;
      var done, rebuilt;
      done, metas, rebuilt := UpdateCache(v, false);
    }
  }
}
