/** Which shards are analysed together: one group for each (variant, run), and the clock-sync shards
    of a run in every group of that run. */
module ShardGroups {
  import opened Options
  import opened ShardCache

  /** What a shard is taken for. */
  datatype Identified = Identified(variant: string, run: string, isClockSync: bool)

  /** A shard goes by its index entry; if that lacks the variant or the run, by its first row; and it
      is passed over if that lacks them too. */
  function Identify(entry: Option<ShardMeta>, rows: seq<Row>): Option<Identified> {
    var indexed := entry.Some? && entry.value.variant.Some? && entry.value.run.Some?;
    if !indexed && rows == [] then None
    else
      var variant := if indexed then entry.value.variant else rows[0].variant;
      var run := if indexed then entry.value.run else rows[0].run;
      var flag := if entry.Some? then entry.value.isClockSync else None;
      if variant.None? || run.None? then None
      else Some(Identified(variant.value, run.value, if flag.Some? then flag.value else ProbeFlag(rows)))
  }

  function RowsOf(shard: Shard): seq<Row> {
    match shard
    case Torn => []
    case Whole(_, content) => content.Rows()
  }

  function IdentityIn(d: Disk, v: Version, s: Stem): Option<Identified>
    requires s in d.shards
  {
    Identify(IndexEntry(d, v, s), RowsOf(d.shards[s]))
  }

  type Group = (string, string)

  predicate IsIn(d: Disk, v: Version, s: Stem, g: Group) {
    s in d.shards && IdentityIn(d, v, s) == Some(Identified(g.0, g.1, false))
  }

  predicate IsSyncOf(d: Disk, v: Version, s: Stem, run: string) {
    s in d.shards && match IdentityIn(d, v, s) case None => false case Some(i) => i.isClockSync && i.run == run
  }

  function MembersSoFar<K, T>(m: map<K, set<T>>, k: K): set<T> { if k in m then m[k] else {} }

  /** `discover_groups`: sort the shards into groups and clock-sync shards, then add those to every
      group of their run. */
  method DiscoverGroups(d: Disk, v: Version) returns (groups: map<Group, set<Stem>>)
    ensures forall g :: g in groups <==> exists s :: IsIn(d, v, s, g)
    ensures forall g, s :: g in groups ==> (s in groups[g] <==> IsIn(d, v, s, g) || IsSyncOf(d, v, s, g.1))
  {
    hide IdentityIn;
    var plain: map<Group, set<Stem>>, syncs: map<string, set<Stem>> := map[], map[];
    var todo := d.shards.Keys;
    while todo != {}
      invariant todo <= d.shards.Keys
      invariant forall g :: g in plain ==> plain[g] != {}
      invariant forall g, s :: s in MembersSoFar(plain, g) <==> s !in todo && IsIn(d, v, s, g)
      invariant forall run, s :: s in MembersSoFar(syncs, run) <==> s !in todo && IsSyncOf(d, v, s, run)
      decreases todo
    {
      var s :| s in todo;
      todo := todo - {s};
      var who := IdentityIn(d, v, s);
      ghost var plain0, syncs0 := plain, syncs;
      if who.Some? {
        var Identified(variant, run, isClockSync) := who.value;
        if isClockSync {
          syncs := syncs[run := MembersSoFar(syncs, run) + {s}];
        } else {
          plain := plain[(variant, run) := MembersSoFar(plain, (variant, run)) + {s}];
        }
      }
      forall g, x
        ensures x in MembersSoFar(plain, g) <==> x in MembersSoFar(plain0, g) || (x == s && IsIn(d, v, s, g))
      {
        assert g == (g.0, g.1);
      }
      assert forall run, x ::
        x in MembersSoFar(syncs, run) <==> x in MembersSoFar(syncs0, run) || (x == s && IsSyncOf(d, v, s, run));
    }
    groups := map g | g in plain :: plain[g] + MembersSoFar(syncs, g.1);
    forall g ensures g in groups <==> exists s :: IsIn(d, v, s, g) {
      if g in plain {
        var s :| s in plain[g];
        assert s in MembersSoFar(plain, g);
      }
      if s :| IsIn(d, v, s, g) {
        assert s in MembersSoFar(plain, g);
      }
    }
    forall g, s | g in groups ensures s in groups[g] <==> IsIn(d, v, s, g) || IsSyncOf(d, v, s, g.1) {
      assert s in groups[g] <==> s in MembersSoFar(plain, g) || s in MembersSoFar(syncs, g.1);
    }
  }

  /** Every shard that is not passed over is in exactly one group, or it is a clock-sync shard and in
      all groups of its run. */
  lemma ShardsAreGroupedOnce(d: Disk, v: Version, s: Stem, g: Group, h: Group)
    requires IsIn(d, v, s, g)
    ensures IsIn(d, v, s, h) ==> h == g
    ensures !IsSyncOf(d, v, s, h.1)
  {
  }

  /** A warm cache and one without an index group a shard alike exactly when its first row has a
      variant, or the index does not know it. They part on an empty compact shard, which the index
      names from the file's metadata, and on one whose variant first appears in a later batch. */
  lemma WarmIsColdExactlyWhen(v: Version, src: Source)
    ensures
      var rows, m := src.content.Rows(), IndexMeta(v, src);
      Identify(Some(m), rows) == Identify(None, rows)
      <==> (rows != [] && rows[0].variant.Some?) || m.variant.None? || m.run.None?
    ensures
      var m := IndexMeta(v, src);
      src.content.Rows() == [] ==> (m.variant.None? || m.run.None? <==> src.content.JsonlContent?)
  {
    var rows := src.content.Rows();
    IndexMetaReadsOff(v, src);
    FlagsAgree(rows, None);
  }

  /** After a finished run a shard is grouped by the first row of its source: the group is its variant
      and run, and clock-sync rows, or an empty variant, make it a clock-sync shard. */
  lemma SyncedGroups(d: Disk, v: Version, s: Stem)
    requires Synced(d, v) && s in d.shards
    ensures SourceOf(d.files, s).Some?
    ensures
      var rows := SourceOf(d.files, s).value.content.Rows();
      rows != [] && rows[0].variant.Some? && rows[0].run.Some? ==>
        IdentityIn(d, v, s) == Some(Identified(rows[0].variant.value, rows[0].run.value, IsSyncRow(rows[0])))
  {
    var src := SourceOf(d.files, s).value;
    IndexMetaReadsOff(v, src);
    assert IndexEntry(d, v, s) == Some(IndexMeta(v, src));
  }

  /** Losing the index changes the group of no shard whose first row has a variant. */
  lemma GroupsDoNotNeedTheIndex(d: Disk, v: Version, s: Stem)
    requires Synced(d, v) && s in d.shards
    requires var rows := RowsOf(d.shards[s]); rows != [] && rows[0].variant.Some?
    ensures IdentityIn(d.(sentinel := Some(Sentinel(v, None))), v, s) == IdentityIn(d, v, s)
  {
    var src := SourceOf(d.files, s).value;
    WarmIsColdExactlyWhen(v, src);
    IndexMetaReadsOff(v, src);
    assert IndexEntry(d, v, s) == Some(IndexMeta(v, src));
  }
}
