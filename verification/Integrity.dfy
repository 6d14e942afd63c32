/** Integrity counts of one writer-receiver pair: duplicates, reordering, unresolved gaps. */
module Integrity {
  import opened Options
  import opened Dedupe
  import opened LossAccounting

  // ----- duplicates -----

  /** The groups of a `group_by`: each key once. */
  function Groups<T(==,!new)>(keys: seq<T>): (groups: seq<T>)
    ensures forall i, j :: 0 <= i < j < |groups| ==> groups[i] != groups[j]
    ensures forall k :: k in groups <==> k in keys
    ensures |groups| <= |keys|
  {
    if keys == [] then []
    else
      var n := |keys| - 1;
      assert keys == keys[..n] + [keys[n]];
      var groups := Groups(keys[..n]);
      if keys[n] in groups then groups else groups + [keys[n]]
  }

  /** Each group of `n` rows adds `n - 1`. */
  function Dupes<T(==,!new)>(keys: seq<T>, groups: seq<T>): int {
    if groups == [] then 0 else Dupes(keys, groups[..|groups| - 1]) + multiset(keys)[groups[|groups| - 1]] - 1
  }

  function Duplicates<T(==,!new)>(keys: seq<T>): int { Dupes(keys, Groups(keys)) }

  lemma {:induction false} DupesOneMore<T(!new)>(keys: seq<T>, k: T, groups: seq<T>)
    requires forall i, j :: 0 <= i < j < |groups| ==> groups[i] != groups[j]
    ensures Dupes(keys + [k], groups) == Dupes(keys, groups) + if k in groups then 1 else 0
  {
    if groups != [] {
      var n := |groups| - 1;
      assert groups == groups[..n] + [groups[n]];
      DupesOneMore(keys, k, groups[..n]);
    }
  }

  /** The duplicate count is the number of rows less the number of distinct keys. */
  lemma {:induction false} DuplicatesAreRowsLessKeys<T(!new)>(keys: seq<T>)
    ensures Duplicates(keys) == |keys| - |set k | k in keys|
  {
    if keys == [] {
      assert (set k | k in keys) == {};
    } else {
      var n := |keys| - 1;
      var before, k := keys[..n], keys[n];
      assert keys == before + [k];
      DuplicatesAreRowsLessKeys(before);
      DupesOneMore(before, k, Groups(before));
      if k in before {
        assert (set x | x in keys) == (set x | x in before);
      } else {
        assert (set x | x in keys) == (set x | x in before) + {k};
        assert Groups(keys)[..|Groups(keys)| - 1] == Groups(before);
        DupesOneMore(before, k, Groups(before));
        assert multiset(keys)[k] == 1;
      }
    }
  }

  predicate OfPair(k: Key, writer: string, receiver: string) { k.writer == writer && k.receiver == receiver }

  /** The keys of a pair's deliveries, one for each delivery. */
  function PairKeys(ds: seq<Delivery>, writer: string, receiver: string): seq<Key> {
    if ds == [] then []
    else
      var d := ds[|ds| - 1];
      PairKeys(ds[..|ds| - 1], writer, receiver) + if OfPair(d.key, writer, receiver) then [d.key] else []
  }

  predicate HasKey(ds: seq<Delivery>, k: Key) { exists i :: 0 <= i < |ds| && ds[i].key == k }

  lemma HasKeyAppend(a: seq<Delivery>, b: seq<Delivery>, k: Key)
    ensures HasKey(a + b, k) <==> HasKey(a, k) || HasKey(b, k)
  {
    if i :| 0 <= i < |a| && a[i].key == k { assert (a + b)[i].key == k; }
    if i :| 0 <= i < |b| && b[i].key == k { assert (a + b)[|a| + i].key == k; }
  }

  lemma {:induction false} PairKeysAreKeys(ds: seq<Delivery>, writer: string, receiver: string, k: Key)
    ensures k in PairKeys(ds, writer, receiver) <==> OfPair(k, writer, receiver) && HasKey(ds, k)
  {
    hide HasKey;
    if ds == [] {
      NoKey(k);
    } else {
      var n := |ds| - 1;
      PairKeysAreKeys(ds[..n], writer, receiver, k);
      HasKeyAppend(ds[..n], [ds[n]], k);
      assert ds[..n] + [ds[n]] == ds;
      OneKey(ds[n], k);
    }
  }

  lemma NoKey(k: Key)
    ensures !HasKey([], k)
  {
  }

  lemma OneKey(d: Delivery, k: Key)
    ensures HasKey([d], k) <==> d.key == k
  {
    assert [d][0] == d;
  }

  /** Some write event of the group has the writer, sequence and path of `k`. */
  predicate WasWritten(g: seq<Event>, k: Key) { exists i :: 0 <= i < |g| && IsWriteOf(g[i], k) }

  lemma {:induction false} WritesOfHaveTheKey(g: seq<Event>, r: Receive, k: Key)
    ensures HasKey(WritesOf(g, r), k) <==> k == r.key && WasWritten(g, k)
  {
    hide HasKey, IsWriteOf;
    if g == [] {
      NoKey(k);
    } else {
      var n := |g| - 1;
      var ds := WritesOf(g, r);
      WritesOfHaveTheKey(g[..n], r, k);
      WrittenOneMore(g, k);
      if IsWriteOf(g[n], r.key) {
        HasKeyAppend(WritesOf(g[..n], r), [ds[|ds| - 1]], k);
        OneKey(ds[|ds| - 1], k);
      } else {
        assert ds == WritesOf(g[..n], r);
      }
    }
  }

  lemma WrittenOneMore(g: seq<Event>, k: Key)
    requires g != []
    ensures WasWritten(g, k) <==> WasWritten(g[..|g| - 1], k) || IsWriteOf(g[|g| - 1], k)
  {
    hide IsWriteOf;
    var n := |g| - 1;
    if i :| 0 <= i < n && IsWriteOf(g[..n][i], k) { assert IsWriteOf(g[i], k); }
    if i :| 0 <= i < |g| && IsWriteOf(g[i], k) && i < n { assert IsWriteOf(g[..n][i], k); }
  }

  predicate Survives(rows: seq<Receive>, n: nat, k: Key) {
    exists j :: 0 <= j < n && j < |rows| && j in Survivors(rows) && rows[j].key == k
  }

  lemma {:induction false} JoinedKeys(g: seq<Event>, rows: seq<Receive>, n: nat, k: Key)
    requires n <= |rows|
    ensures HasKey(Joined(g, rows, n), k) <==> Survives(rows, n, k) && WasWritten(g, k)
  {
    hide HasKey, WasWritten, Survivors, WritesOf;
    if n == 0 {
      NoKey(k);
    } else {
      JoinedKeys(g, rows, n - 1, k);
      WritesOfHaveTheKey(g, rows[n - 1], k);
      HasKeyAppend(Joined(g, rows, n - 1), WritesOf(g, rows[n - 1]), k);
      NoKey(k);
      HasKeyAppend(Joined(g, rows, n - 1), [], k);
    }
  }

  /** Every received key has a surviving row. */
  lemma ReceivedKeysSurvive(rows: seq<Receive>, i: nat)
    requires i < |rows|
    ensures Survives(rows, |rows|, rows[i].key)
  {
    var chain := EveryRowHasASurvivingHead(rows, i, |set j | 0 <= j < |rows| && Before(rows, j, i)|);
    assert rows[chain[0]].key == rows[i].key;
  }

  /** The keys of a pair that were received and written. */
  function DeliveredKeys(g: seq<Event>, writer: string, receiver: string): set<Key> {
    var rows := ReceiveRows(g);
    set i | 0 <= i < |rows| && OfPair(rows[i].key, writer, receiver) && WasWritten(g, rows[i].key) :: rows[i].key
  }

  /** A pair's duplicate count is its deliveries less the distinct keys that appear in the raw log as
      received and as written: neither the dedupe nor the join with the writes loses a key
      altogether, and each further surviving receive and each further write of a key is counted. */
  lemma DuplicatesAfterDedupe(g: seq<Event>, writer: string, receiver: string)
    ensures
      var keys := PairKeys(Deliveries(g), writer, receiver);
      Duplicates(keys) == |keys| - |DeliveredKeys(g, writer, receiver)|
  {
    hide Survivors, Duplicates, HasKey, WasWritten, Joined, ReceiveRows;
    var rows, keys := ReceiveRows(g), PairKeys(Deliveries(g), writer, receiver);
    DuplicatesAreRowsLessKeys(keys);
    forall k ensures k in DeliveredKeys(g, writer, receiver) <==> k in keys {
      PairKeysAreKeys(Deliveries(g), writer, receiver, k);
      JoinedKeys(g, rows, |rows|, k);
      if k in DeliveredKeys(g, writer, receiver) {
        var i :| 0 <= i < |rows| && OfPair(rows[i].key, writer, receiver) && rows[i].key == k;
        ReceivedKeysSurvive(rows, i);
      }
    }
    assert (set k | k in keys) == DeliveredKeys(g, writer, receiver);
  }

  // ----- reordering -----

  /** Receives in time order whose sequence number is below the previous one's. */
  function OutOfOrder(seqs: seq<int>): (n: nat)
    ensures |seqs| > 0 ==> n < |seqs|
  {
    if |seqs| <= 1 then 0
    else OutOfOrder(seqs[..|seqs| - 1]) + if seqs[|seqs| - 1] < seqs[|seqs| - 2] then 1 else 0
  }

  predicate FallsAt(seqs: seq<int>, i: nat) { 1 <= i < |seqs| && seqs[i] < seqs[i - 1] }

  /** The count is the number of receives below the one before. */
  lemma {:induction false} OutOfOrderCountsFalls(seqs: seq<int>)
    ensures OutOfOrder(seqs) == |set i | 0 <= i < |seqs| && FallsAt(seqs, i)|
  {
    if |seqs| <= 1 {
      assert (set i | 0 <= i < |seqs| && FallsAt(seqs, i)) == {};
    } else {
      var n := |seqs| - 1;
      OutOfOrderCountsFalls(seqs[..n]);
      var before := set i | 0 <= i < |seqs[..n]| && FallsAt(seqs[..n], i);
      assert (set i | 0 <= i < |seqs| && FallsAt(seqs, i)) == before + if FallsAt(seqs, n) then {n} else {};
    }
  }

  /** Nothing is counted exactly when the sequence numbers never fall from any receive to any later
      one, not just between neighbours. */
  lemma {:induction false} NoneOutOfOrderIsSorted(seqs: seq<int>)
    ensures OutOfOrder(seqs) == 0 <==> forall i, j :: 0 <= i < j < |seqs| ==> seqs[i] <= seqs[j]
  {
    if |seqs| > 1 {
      var n := |seqs| - 1;
      NoneOutOfOrderIsSorted(seqs[..n]);
      assert forall i :: 0 <= i < n ==> seqs[..n][i] == seqs[i];
      if OutOfOrder(seqs[..n]) == 0 && seqs[n - 1] <= seqs[n] {
        forall i | 0 <= i < n ensures seqs[i] <= seqs[n] {
          assert seqs[..n][i] <= seqs[..n][n - 1];
        }
      }
      if forall i, j :: 0 <= i < j < |seqs| ==> seqs[i] <= seqs[j] {
        assert forall i, j :: 0 <= i < j < n ==> seqs[..n][i] <= seqs[..n][j];
      }
    }
  }

  // ----- gaps -----

  /** Gap events of one pair; the sequence number may be missing. */
  datatype GapEvent = Detected(missing: Option<int>) | Filled(recovered: Option<int>)

  function DetectedSeqs(events: seq<GapEvent>): seq<int> {
    if events == [] then []
    else
      var e := events[|events| - 1];
      DetectedSeqs(events[..|events| - 1]) + if e.Detected? && e.missing.Some? then [e.missing.value] else []
  }

  function FilledSeqs(events: seq<GapEvent>): seq<int> {
    if events == [] then []
    else
      var e := events[|events| - 1];
      FilledSeqs(events[..|events| - 1]) + if e.Filled? && e.recovered.Some? then [e.recovered.value] else []
  }

  /** The rows of the left join of `detected` with `filled` that found no match. */
  function Unmatched(detected: seq<int>, filled: seq<int>): nat {
    if detected == [] then 0
    else Unmatched(detected[..|detected| - 1], filled) + if detected[|detected| - 1] in filled then 0 else 1
  }

  /** `_gap_counts` for one pair: nothing if there is no usable gap event; unmatched detections; zero
      if gaps were only filled. */
  function GapCount(events: seq<GapEvent>): Option<nat> {
    var detected, filled := Groups(DetectedSeqs(events)), Groups(FilledSeqs(events));
    if detected != [] then Some(Unmatched(detected, filled))
    else if filled != [] then Some(0)
    else None
  }

  function DetectedSet(events: seq<GapEvent>): set<int> {
    set e | e in events && e.Detected? && e.missing.Some? :: e.missing.value
  }

  function FilledSet(events: seq<GapEvent>): set<int> {
    set e | e in events && e.Filled? && e.recovered.Some? :: e.recovered.value
  }

  lemma {:induction false} SeqsAreSets(events: seq<GapEvent>)
    ensures forall n :: n in DetectedSeqs(events) <==> n in DetectedSet(events)
    ensures forall n :: n in FilledSeqs(events) <==> n in FilledSet(events)
  {
    if events != [] {
      var before, e := events[..|events| - 1], events[|events| - 1];
      assert events == before + [e];
      SeqsAreSets(before);
      assert DetectedSet(events) == DetectedSet(before) + DetectedSet([e]);
      assert FilledSet(events) == FilledSet(before) + FilledSet([e]);
      assert e.Detected? && e.missing.Some? ==> DetectedSet([e]) == {e.missing.value};
      assert e.Filled? && e.recovered.Some? ==> FilledSet([e]) == {e.recovered.value};
    }
  }

  lemma {:induction false} UnmatchedIsDifference(detected: seq<int>, filled: seq<int>)
    requires forall i, j :: 0 <= i < j < |detected| ==> detected[i] != detected[j]
    ensures Unmatched(detected, filled) == |set n | n in detected && n !in filled|
  {
    if detected == [] {
      assert (set n | n in detected && n !in filled) == {};
    } else {
      var before, d := detected[..|detected| - 1], detected[|detected| - 1];
      assert detected == before + [d];
      UnmatchedIsDifference(before, filled);
      var rest := set n | n in before && n !in filled;
      assert (set n | n in detected && n !in filled) == if d in filled then rest else rest + {d};
      assert d !in before;
    }
  }

  /** Unresolved gaps are the set difference of the numbers reported missing and recovered, however
      often and in whatever order they were reported. */
  lemma GapCountIsSetDifference(events: seq<GapEvent>)
    ensures GapCount(events) ==
      if DetectedSet(events) + FilledSet(events) == {} then None else Some(|DetectedSet(events) - FilledSet(events)|)
  {
    hide DetectedSet, FilledSet, DetectedSeqs, FilledSeqs;
    var detected, filled := Groups(DetectedSeqs(events)), Groups(FilledSeqs(events));
    SeqsAreSets(events);
    UnmatchedIsDifference(detected, filled);
    assert forall n :: n in detected <==> n in DetectedSeqs(events);
    assert forall n :: n in filled <==> n in FilledSeqs(events);
    assert forall n :: n in detected <==> n in DetectedSet(events);
    assert forall n :: n in filled <==> n in FilledSet(events);
    assert (set n | n in detected && n !in filled) == DetectedSet(events) - FilledSet(events);
    assert detected == [] <==> DetectedSet(events) == {} by {
      if detected != [] { assert detected[0] in DetectedSet(events); }
    }
    assert filled == [] <==> FilledSet(events) == {} by {
      if filled != [] { assert filled[0] in FilledSet(events); }
    }
  }
}
