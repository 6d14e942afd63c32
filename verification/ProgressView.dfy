/** What a runner knows of progress: its own variant's events, and the updates of its peers. */
module ProgressView {
  import opened Options

  // ----- updates of peers -----

  datatype Update = Update(
    runner: string, spawn: string, phase: string, sent: nat, received: nat, eotSent: bool, eotReceived: bool,
    ts: string)

  /** An update and the local time it was folded in. */
  datatype Arrival = Arrival(update: Update, now: int)

  datatype Snapshot = Snapshot(
    phase: string, sent: nat, received: nat, eotSent: bool, eotReceived: bool, ts: string, lastUpdate: int)
  {
    function Apply(u: Update, now: int): Snapshot {
      Snapshot(u.phase,
               if u.sent > sent then u.sent else sent,
               if u.received > received then u.received else received,
               eotSent || u.eotSent, eotReceived || u.eotReceived, u.ts, now)
    }
  }

  type View = map<string, map<string, Snapshot>>

  function Get(view: View, peer: string, spawn: string): Option<Snapshot> {
    if peer in view && spawn in view[peer] then Some(view[peer][spawn]) else None
  }

  predicate Concerns(u: Update, peer: string, spawn: string) { u.runner == peer && u.spawn == spawn }

  /** `n` is the largest value of `f` over the updates of a spawn. */
  ghost predicate IsMax(log: seq<Arrival>, peer: string, spawn: string, f: Update -> nat, n: nat) {
    && (forall i :: 0 <= i < |log| && Concerns(log[i].update, peer, spawn) ==> f(log[i].update) <= n)
    && (exists i :: 0 <= i < |log| && Concerns(log[i].update, peer, spawn) && f(log[i].update) == n)
  }

  /** Some update of the spawn satisfies `f`. */
  ghost predicate SomeUpdate(log: seq<Arrival>, peer: string, spawn: string, f: Update -> bool) {
    exists i :: 0 <= i < |log| && Concerns(log[i].update, peer, spawn) && f(log[i].update)
  }

  ghost predicate IsLast(log: seq<Arrival>, peer: string, spawn: string, i: int) {
    0 <= i < |log| && Concerns(log[i].update, peer, spawn)
      && forall j :: i < j < |log| ==> !Concerns(log[j].update, peer, spawn)
  }

  ghost function Sent(): Update -> nat { (u: Update) => u.sent }
  ghost function Received(): Update -> nat { (u: Update) => u.received }
  ghost function EotSent(): Update -> bool { (u: Update) => u.eotSent }
  ghost function EotReceived(): Update -> bool { (u: Update) => u.eotReceived }
  ghost function Any(): Update -> bool { (u: Update) => true }

  predicate ShowsTimesOf(s: Snapshot, a: Arrival) {
    s.phase == a.update.phase && s.ts == a.update.ts && s.lastUpdate == a.now
  }

  /** A snapshot holds the largest counters and every flag ever set, with the phase and the times of
      the last update. */
  ghost predicate Digests(s: Snapshot, log: seq<Arrival>, peer: string, spawn: string) {
    && IsMax(log, peer, spawn, Sent(), s.sent) && IsMax(log, peer, spawn, Received(), s.received)
    && (s.eotSent <==> SomeUpdate(log, peer, spawn, EotSent()))
    && (s.eotReceived <==> SomeUpdate(log, peer, spawn, EotReceived()))
    && (exists i :: IsLast(log, peer, spawn, i) && ShowsTimesOf(s, log[i]))
  }

  /** A view reflects a log: a snapshot for exactly the spawns with an update, digesting them. */
  ghost predicate Reflects(view: View, log: seq<Arrival>) {
    forall p, s ::
      match Get(view, p, s)
      case None => !SomeUpdate(log, p, s, Any())
      case Some(snapshot) => Digests(snapshot, log, p, s)
  }

  lemma FirstDigest(log: seq<Arrival>, a: Arrival)
    requires !SomeUpdate(log, a.update.runner, a.update.spawn, Any())
    ensures
      var u := a.update;
      Digests(Snapshot(u.phase, u.sent, u.received, u.eotSent, u.eotReceived, u.ts, a.now).Apply(u, a.now),
              log + [a], u.runner, u.spawn)
  {
    var u, n := a.update, |log|;
    assert forall i :: 0 <= i < n ==> !Concerns(log[i].update, u.runner, u.spawn) by {
      forall i | 0 <= i < n ensures !Concerns(log[i].update, u.runner, u.spawn) {
        assert Any()(log[i].update);
      }
    }
    assert (log + [a])[n] == a && IsLast(log + [a], u.runner, u.spawn, n);
  }

  lemma NextDigest(s: Snapshot, log: seq<Arrival>, a: Arrival)
    requires Digests(s, log, a.update.runner, a.update.spawn)
    ensures Digests(s.Apply(a.update, a.now), log + [a], a.update.runner, a.update.spawn)
  {
    var u, n := a.update, |log|;
    assert (log + [a])[n] == a && IsLast(log + [a], u.runner, u.spawn, n);
    NextMax(log, a, Sent(), s.sent);
    NextMax(log, a, Received(), s.received);
    NextSome(log, a, u.runner, u.spawn, EotSent());
    NextSome(log, a, u.runner, u.spawn, EotReceived());
  }

  lemma NextMax(log: seq<Arrival>, a: Arrival, f: Update -> nat, n: nat)
    requires IsMax(log, a.update.runner, a.update.spawn, f, n)
    ensures IsMax(log + [a], a.update.runner, a.update.spawn, f, if f(a.update) > n then f(a.update) else n)
  {
    var p, s := a.update.runner, a.update.spawn;
    var i :| 0 <= i < |log| && Concerns(log[i].update, p, s) && f(log[i].update) == n;
    assert (log + [a])[i] == log[i] && (log + [a])[|log|] == a;
  }

  lemma NextSome(log: seq<Arrival>, a: Arrival, p: string, s: string, f: Update -> bool)
    ensures SomeUpdate(log + [a], p, s, f) <==> SomeUpdate(log, p, s, f) || (Concerns(a.update, p, s) && f(a.update))
  {
    if i :| 0 <= i < |log| && Concerns(log[i].update, p, s) && f(log[i].update) {
      assert (log + [a])[i] == log[i];
    }
    assert (log + [a])[|log|] == a;
  }

  lemma OtherDigest(s: Snapshot, log: seq<Arrival>, a: Arrival, p: string, q: string)
    requires Digests(s, log, p, q) && !Concerns(a.update, p, q)
    ensures Digests(s, log + [a], p, q)
  {
    OtherMax(log, a, p, q, Sent(), s.sent);
    OtherMax(log, a, p, q, Received(), s.received);
    NextSome(log, a, p, q, EotSent());
    NextSome(log, a, p, q, EotReceived());
    var i :| IsLast(log, p, q, i) && ShowsTimesOf(s, log[i]);
    assert IsLast(log + [a], p, q, i);
  }

  lemma OtherMax(log: seq<Arrival>, a: Arrival, p: string, s: string, f: Update -> nat, n: nat)
    requires IsMax(log, p, s, f, n) && !Concerns(a.update, p, s)
    ensures IsMax(log + [a], p, s, f, n)
  {
    var i :| 0 <= i < |log| && Concerns(log[i].update, p, s) && f(log[i].update) == n;
    assert (log + [a])[i] == log[i];
  }

  /** One update changes the snapshot of its own peer and spawn, and no other. */
  lemma ReflectsOneMore(view: View, view': View, log: seq<Arrival>, a: Arrival)
    requires Reflects(view, log)
    requires forall p, s :: !Concerns(a.update, p, s) ==> Get(view', p, s) == Get(view, p, s)
    requires
      var u := a.update;
      var first := Snapshot(u.phase, u.sent, u.received, u.eotSent, u.eotReceived, u.ts, a.now);
      var before := Get(view, u.runner, u.spawn);
      Get(view', u.runner, u.spawn) == Some((if before.Some? then before.value else first).Apply(u, a.now))
    ensures Reflects(view', log + [a])
  {
    hide Digests, SomeUpdate;
    forall p, s
      ensures match Get(view', p, s)
        case None => !SomeUpdate(log + [a], p, s, Any())
        case Some(snapshot) => Digests(snapshot, log + [a], p, s)
    {
      assert match Get(view, p, s)
        case None => !SomeUpdate(log, p, s, Any())
        case Some(snapshot) => Digests(snapshot, log, p, s);
      if Concerns(a.update, p, s) {
        if Get(view, p, s).None? { FirstDigest(log, a); } else { NextDigest(Get(view, p, s).value, log, a); }
      } else {
        NextSome(log, a, p, s, Any());
        if Get(view, p, s).Some? { OtherDigest(Get(view, p, s).value, log, a, p, s); }
      }
    }
  }

  ghost predicate Occurs(log: seq<Arrival>, u: Update) { exists j :: 0 <= j < |log| && log[j].update == u }

  ghost predicate Included(a: seq<Arrival>, b: seq<Arrival>) { forall i :: 0 <= i < |a| ==> Occurs(b, a[i].update) }

  /** The two logs hold the same updates, in any order, any number of times, at any local times. */
  ghost predicate SameUpdates(a: seq<Arrival>, b: seq<Arrival>) { Included(a, b) && Included(b, a) }

  /** Views converge: same updates, same spawns known, same counters, same flags. */
  lemma ViewsConverge(v: View, w: View, a: seq<Arrival>, b: seq<Arrival>, p: string, s: string)
    requires Reflects(v, a) && Reflects(w, b) && SameUpdates(a, b)
    ensures Get(v, p, s).Some? <==> Get(w, p, s).Some?
    ensures Get(v, p, s).Some? ==>
      var x, y := Get(v, p, s).value, Get(w, p, s).value;
      x.sent == y.sent && x.received == y.received && x.eotSent == y.eotSent && x.eotReceived == y.eotReceived
  {
    hide SameUpdates, IsMax, SomeUpdate, IsLast;
    var x, y := Get(v, p, s), Get(w, p, s);
    assert match x case None => !SomeUpdate(a, p, s, Any()) case Some(d) => Digests(d, a, p, s);
    assert match y case None => !SomeUpdate(b, p, s, Any()) case Some(d) => Digests(d, b, p, s);
    MaxExists(a, p, s, if x.Some? then x.value.sent else 0);
    MaxExists(b, p, s, if y.Some? then y.value.sent else 0);
    SameSome(a, b, p, s, Any());
    SameSome(a, b, p, s, EotSent());
    SameSome(a, b, p, s, EotReceived());
    if x.Some? && y.Some? {
      SameMax(a, b, p, s, Sent(), x.value.sent, y.value.sent);
      SameMax(a, b, p, s, Received(), x.value.received, y.value.received);
    }
  }

  lemma MaxExists(log: seq<Arrival>, p: string, s: string, n: nat)
    ensures IsMax(log, p, s, Sent(), n) ==> SomeUpdate(log, p, s, Any())
  {
    if IsMax(log, p, s, Sent(), n) {
      var i :| 0 <= i < |log| && Concerns(log[i].update, p, s) && Sent()(log[i].update) == n;
      assert Any()(log[i].update);
    }
  }

  lemma SameSome(a: seq<Arrival>, b: seq<Arrival>, p: string, s: string, f: Update -> bool)
    requires SameUpdates(a, b)
    ensures SomeUpdate(a, p, s, f) <==> SomeUpdate(b, p, s, f)
  {
    SomeIncluded(a, b, p, s, f);
    SomeIncluded(b, a, p, s, f);
  }

  lemma SomeIncluded(a: seq<Arrival>, b: seq<Arrival>, p: string, s: string, f: Update -> bool)
    requires Included(a, b)
    ensures SomeUpdate(a, p, s, f) ==> SomeUpdate(b, p, s, f)
  {
    if i :| 0 <= i < |a| && Concerns(a[i].update, p, s) && f(a[i].update) {
      assert Occurs(b, a[i].update);
    }
  }

  lemma SameMax(a: seq<Arrival>, b: seq<Arrival>, p: string, s: string, f: Update -> nat, m: nat, n: nat)
    requires SameUpdates(a, b) && IsMax(a, p, s, f, m) && IsMax(b, p, s, f, n)
    ensures m == n
  {
    MaxIncluded(a, b, p, s, f, m, n);
    MaxIncluded(b, a, p, s, f, n, m);
  }

  lemma MaxIncluded(a: seq<Arrival>, b: seq<Arrival>, p: string, s: string, f: Update -> nat, m: nat, n: nat)
    requires Included(a, b) && IsMax(a, p, s, f, m) && IsMax(b, p, s, f, n)
    ensures m <= n
  {
    var i :| 0 <= i < |a| && Concerns(a[i].update, p, s) && f(a[i].update) == m;
    assert Occurs(b, a[i].update);
  }

  class RemoteProgressView {
    var byPeer: View
    ghost var log: seq<Arrival>

    ghost predicate Valid() reads this { Reflects(byPeer, log) }

    constructor ()
      ensures Valid() && byPeer == map[] && log == []
    {
      byPeer, log := map[], [];
    }

    /** Fold one update in: its own snapshot follows the log, all others stay as they are. */
    method ApplyUpdate(u: Update, now: int)
      requires Valid()
      modifies this
      ensures Valid() && log == old(log) + [Arrival(u, now)]
      ensures forall p, s :: !Concerns(u, p, s) ==> Get(byPeer, p, s) == Get(old(byPeer), p, s)
    {
      hide Reflects;
      var spawns: map<string, Snapshot> := if u.runner in byPeer then byPeer[u.runner] else map[];
      var entry :=
        if u.spawn in spawns then spawns[u.spawn]
        else Snapshot(u.phase, u.sent, u.received, u.eotSent, u.eotReceived, u.ts, now);
      ghost var before := byPeer;
      byPeer := byPeer[u.runner := spawns[u.spawn := entry.Apply(u, now)]];
      ReflectsOneMore(before, byPeer, log, Arrival(u, now));
      log := log + [Arrival(u, now)];
    }

    /** `snapshot_for`. */
    method SnapshotFor(peer: string, spawn: string) returns (r: Option<Snapshot>)
      requires Valid()
      ensures r.None? <==> !SomeUpdate(log, peer, spawn, Any())
      ensures r.Some? ==> Digests(r.value, log, peer, spawn)
    {
      assert match Get(byPeer, peer, spawn)
        case None => !SomeUpdate(log, peer, spawn, Any())
        case Some(d) => Digests(d, log, peer, spawn);
      r := Get(byPeer, peer, spawn);
      if r.Some? {
        MaxExists(log, peer, spawn, r.value.sent);
      }
    }
  }

  // ----- the runner's own variant -----

  datatype Event = Event(phase: string, sent: nat, received: nat, eotSent: bool, eotReceived: bool, now: int)

  /** Event `i` is the first to report `n`, and none before it reports more. */
  ghost predicate IsFirst(log: seq<Event>, f: Event -> nat, n: nat, i: int) {
    0 <= i < |log| && f(log[i]) == n && forall j :: 0 <= j < i ==> f(log[j]) < n
  }

  /** `n` is the highest count so far and `since` the time it was first reported; `start` if the
      count never left zero. */
  ghost predicate Peak(log: seq<Event>, f: Event -> nat, n: nat, since: int, start: int) {
    && (forall i :: 0 <= i < |log| ==> f(log[i]) <= n)
    && (if n == 0 then since == start
        else exists i :: 0 <= i < |log| && since == log[i].now && IsFirst(log, f, n, i))
  }

  lemma PeakOneMore(log: seq<Event>, e: Event, f: Event -> nat, n: nat, since: int, start: int)
    requires Peak(log, f, n, since, start)
    ensures Peak(log + [e], f, if f(e) > n then f(e) else n, if f(e) > n then e.now else since, start)
  {
    var all := log + [e];
    if f(e) > n {
      assert all[|log|] == e;
    } else if n > 0 {
      var i :| 0 <= i < |log| && since == log[i].now && IsFirst(log, f, n, i);
      assert all[i] == log[i];
    }
  }

  ghost function SentOf(): Event -> nat { (e: Event) => e.sent }
  ghost function ReceivedOf(): Event -> nat { (e: Event) => e.received }

  lemma SentPeakOneMore(log: seq<Event>, e: Event, n: nat, since: int, start: int)
    requires Peak(log, SentOf(), n, since, start)
    ensures Peak(log + [e], SentOf(), if e.sent > n then e.sent else n, if e.sent > n then e.now else since, start)
  {
    hide Peak;
    PeakOneMore(log, e, SentOf(), n, since, start);
  }

  lemma ReceivedPeakOneMore(log: seq<Event>, e: Event, n: nat, since: int, start: int)
    requires Peak(log, ReceivedOf(), n, since, start)
    ensures Peak(log + [e], ReceivedOf(), if e.received > n then e.received else n,
                 if e.received > n then e.now else since, start)
  {
    hide Peak;
    PeakOneMore(log, e, ReceivedOf(), n, since, start);
  }

  function SentFlag(): Event -> bool { (e: Event) => e.eotSent }
  function ReceivedFlag(): Event -> bool { (e: Event) => e.eotReceived }

  predicate EverSet(log: seq<Event>, f: Event -> bool) { exists i :: 0 <= i < |log| && f(log[i]) }

  /** The flag as tracked: that of the last event. */
  predicate Tracked(log: seq<Event>, f: Event -> bool) { log != [] && f(log[|log| - 1]) }

  /** The flag after these events is the sticky flag the documentation speaks of. */
  predicate IsSticky(log: seq<Event>, f: Event -> bool) { Tracked(log, f) <==> EverSet(log, f) }

  /** The sender never takes the flag back from one event to the next. */
  predicate NeverTakenBack(log: seq<Event>, f: Event -> bool) {
    forall i :: 0 <= i < |log| - 1 && f(log[i]) ==> f(log[i + 1])
  }

  lemma EverSetOneMore(log: seq<Event>, e: Event, f: Event -> bool)
    ensures EverSet(log + [e], f) <==> EverSet(log, f) || f(e)
  {
    var all := log + [e];
    if i :| 0 <= i < |log| && f(log[i]) { assert all[i] == log[i]; }
    assert all[|log|] == e;
  }

  lemma FlagsOneMore(log: seq<Event>, e: Event)
    ensures EverSet(log + [e], SentFlag()) <==> EverSet(log, SentFlag()) || e.eotSent
    ensures EverSet(log + [e], ReceivedFlag()) <==> EverSet(log, ReceivedFlag()) || e.eotReceived
  {
    hide EverSet;
    EverSetOneMore(log, e, SentFlag());
    EverSetOneMore(log, e, ReceivedFlag());
  }

  /** One event keeps a sticky flag sticky exactly when it carries the flag or the flag is not set. */
  lemma EventKeepsSticky(log: seq<Event>, e: Event, f: Event -> bool)
    requires IsSticky(log, f)
    ensures IsSticky(log + [e], f) <==> f(e) || !Tracked(log, f)
  {
    EverSetOneMore(log, e, f);
  }

  /** The tracked flag is sticky after every event exactly when the sender never takes it back. */
  lemma {:induction false} StickyThroughoutExactlyWhen(log: seq<Event>, f: Event -> bool)
    ensures (forall n :: 0 <= n <= |log| ==> IsSticky(log[..n], f)) <==> NeverTakenBack(log, f)
  {
    hide IsSticky, EverSet;
    if log == [] {
      NothingIsSticky(f);
      assert log[..0] == [];
    } else {
      var n := |log| - 1;
      var before, e := log[..n], log[n];
      assert log == before + [e] && log[..|log|] == log;
      StickyThroughoutExactlyWhen(before, f);
      assert forall k :: 0 <= k <= n ==> before[..k] == log[..k];
      if forall k :: 0 <= k <= n ==> IsSticky(before[..k], f) {
        assert before[..n] == before;
        EventKeepsSticky(before, e, f);
      }
      TakenBackOneMore(before, e, f);
    }
  }

  lemma NothingIsSticky(f: Event -> bool)
    ensures IsSticky([], f)
  {
  }

  lemma TakenBackOneMore(log: seq<Event>, e: Event, f: Event -> bool)
    ensures NeverTakenBack(log + [e], f) <==> NeverTakenBack(log, f) && (Tracked(log, f) ==> f(e))
  {
    var all := log + [e];
    assert forall i :: 0 <= i < |log| ==> all[i] == log[i];
    if NeverTakenBack(all, f) {
      forall i | 0 <= i < |log| - 1 && f(log[i]) ensures f(log[i + 1]) {
        assert f(all[i]) && f(all[i + 1]);
      }
      if Tracked(log, f) {
        var last := |log| - 1;
        assert f(all[last]) && all[last + 1] == e;
      }
    }
  }

  /** It does happen: a flag that is set and then taken back is forgotten. */
  lemma FlagIsForgotten(setting: Event, unsetting: Event, f: Event -> bool)
    requires f(setting) && !f(unsetting)
    ensures EverSet([setting, unsetting], f) && !Tracked([setting, unsetting], f)
  {
    assert f([setting, unsetting][0]);
  }

  ghost predicate ShowsLast(log: seq<Event>, phase: string, eotSent: bool, eotReceived: bool, at: int, start: int) {
    if log == [] then phase == "unknown" && !eotSent && !eotReceived && at == start
    else
      var e := log[|log| - 1];
      phase == e.phase && eotSent == e.eotSent && eotReceived == e.eotReceived && at == e.now
  }

  lemma ShowsNext(log: seq<Event>, e: Event, start: int)
    ensures ShowsLast(log + [e], e.phase, e.eotSent, e.eotReceived, e.now, start)
  {
  }

  class LocalProgressTracker {
    var phase: string
    var sent: nat
    var received: nat
    var eotSent: bool
    var eotReceived: bool
    var lastProgress: int
    var lastSentChange: int
    var lastReceivedChange: int
    ghost var start: int
    ghost var log: seq<Event>

    /** Counters are peaks and know since when; the rest is the last event's. */
    ghost predicate Valid() reads this {
      && Peak(log, SentOf(), sent, lastSentChange, start)
      && Peak(log, ReceivedOf(), received, lastReceivedChange, start)
      && ShowsLast(log, phase, eotSent, eotReceived, lastProgress, start)
    }

    constructor (now: int)
      ensures Valid() && log == [] && start == now
    {
      phase, sent, received, eotSent, eotReceived := "unknown", 0, 0, false, false;
      lastProgress, lastSentChange, lastReceivedChange, start, log := now, now, now, now, [];
    }

    /** Fold one event in. A flag that was sticky stays so exactly when the event carries it or it
        was not set. */
    method ApplyProgress(e: Event)
      requires Valid()
      modifies this
      ensures Valid() && log == old(log) + [e] && start == old(start)
      ensures (old(eotSent) <==> EverSet(old(log), SentFlag())) ==>
        ((eotSent <==> EverSet(log, SentFlag())) <==> e.eotSent || !old(eotSent))
      ensures (old(eotReceived) <==> EverSet(old(log), ReceivedFlag())) ==>
        ((eotReceived <==> EverSet(log, ReceivedFlag())) <==> e.eotReceived || !old(eotReceived))
    {
      hide Peak, SentOf, ReceivedOf, EverSet, SentFlag, ReceivedFlag, ShowsLast;
      ShowsNext(log, e, start);
      FlagsOneMore(log, e);
      SentPeakOneMore(log, e, sent, lastSentChange, start);
      ReceivedPeakOneMore(log, e, received, lastReceivedChange, start);
      phase := e.phase;
      if e.sent > sent {
        sent, lastSentChange := e.sent, e.now;
      }
      if e.received > received {
        received, lastReceivedChange := e.received, e.now;
      }
      eotSent, eotReceived, lastProgress := e.eotSent, e.eotReceived, e.now;
      log := log + [e];
    }
  }
}
