/** Removal of receive rows that were logged twice for one delivery: same key, at most 100
    microseconds after the row before. The source sorts the table by key and time, shifts the time
    column by one within each key, and keeps a row when there is no earlier row or the gap is
    larger than the threshold. Rows are identified by their position in the log. */
module Dedupe {
  import opened Finite
  import opened Sorting

  const NEAR_COINCIDENT_NS := 100_000

  datatype Key = Key(writer: string, receiver: string, sequence: int, path: string)
  datatype Receive = Receive(key: Key, ts: int)

  // ----- as the source computes it -----

  predicate Positions(rows: seq<Receive>, ps: seq<nat>) { forall a :: 0 <= a < |ps| ==> ps[a] < |rows| }

  predicate Increasing(ps: seq<nat>) { forall a, b :: 0 <= a < b < |ps| ==> ps[a] < ps[b] }

  /** Positions of the rows with key `k`, in log order. */
  function PositionsOf(rows: seq<Receive>, k: Key): (ps: seq<nat>)
    ensures Positions(rows, ps) && Increasing(ps)
    ensures forall a :: 0 <= a < |ps| ==> rows[ps[a]].key == k
    ensures forall p :: 0 <= p < |rows| && rows[p].key == k ==> p in ps
  {
    if rows == [] then []
    else
      var n := |rows| - 1;
      var ps := PositionsOf(rows[..n], k);
      assert forall p :: 0 <= p < n && rows[p].key == k ==> rows[..n][p].key == k;
      if rows[n].key == k then ps + [n] else ps
  }

  function TimeKey(rows: seq<Receive>): nat -> real {
    (p: nat) => if p < |rows| then rows[p].ts as real else 0.0
  }

  /** The rows of key `k` ordered by time. */
  function Chronological(rows: seq<Receive>, k: Key): seq<nat> {
    StableSort(TimeKey(rows), PositionsOf(rows, k))
  }

  /** Keep a row when there is no previous one or it is more than the threshold away. */
  function KeepHeads(rows: seq<Receive>, ps: seq<nat>): seq<nat>
    requires Positions(rows, ps)
  {
    if ps == [] then []
    else
      var n := |ps| - 1;
      var keep := n == 0 || Gap(rows[ps[n]].ts, rows[ps[n - 1]].ts) > NEAR_COINCIDENT_NS;
      KeepHeads(rows, ps[..n]) + if keep then [ps[n]] else []
  }

  function Gap(a: int, b: int): nat { if a >= b then a - b else b - a }

  /** The surviving rows of key `k`, oldest first. */
  function Kept(rows: seq<Receive>, k: Key): seq<nat> {
    SortedPositions(rows, PositionsOf(rows, k));
    KeepHeads(rows, Chronological(rows, k))
  }

  lemma SortedPositions(rows: seq<Receive>, ps: seq<nat>)
    requires Positions(rows, ps)
    ensures Positions(rows, StableSort(TimeKey(rows), ps))
  {
    var sorted := StableSort(TimeKey(rows), ps);
    SameElements(TimeKey(rows), ps);
    forall a | 0 <= a < |sorted| ensures sorted[a] < |rows| {
      assert sorted[a] in sorted;
    }
  }

  /** The positions of all surviving rows. */
  function Survivors(rows: seq<Receive>): set<nat> {
    set p | 0 <= p < |rows| && p in Kept(rows, rows[p].key)
  }

  // ----- what it means -----

  /** Row `j` comes before row `i` in time; rows with equal times keep their log order. */
  predicate Before(rows: seq<Receive>, j: nat, i: nat)
    requires i < |rows| && j < |rows|
  {
    rows[j].ts < rows[i].ts || (rows[j].ts == rows[i].ts && j < i)
  }

  /** No earlier row of the same key lies within the threshold: `i` is the head of its chain. */
  predicate IsHead(rows: seq<Receive>, i: nat)
    requires i < |rows|
  {
    forall j :: 0 <= j < |rows| && rows[j].key == rows[i].key && Before(rows, j, i) ==>
      rows[i].ts - rows[j].ts > 100_000
  }

  ghost predicate InTimeOrder(rows: seq<Receive>, ps: seq<nat>) {
    && Positions(rows, ps)
    && forall a, b :: 0 <= a < b < |ps| ==> Before(rows, ps[a], ps[b])
  }

  lemma TailInTimeOrder(rows: seq<Receive>, ys: seq<nat>)
    requires InTimeOrder(rows, ys) && ys != []
    ensures InTimeOrder(rows, ys[1..]) && ys[0] < |rows|
    ensures forall y :: y in ys[1..] ==> y < |rows| && Before(rows, ys[0], y)
  {
    var tail := ys[1..];
    forall a, b | 0 <= a < b < |tail| ensures Before(rows, tail[a], tail[b]) {
      assert Before(rows, ys[a + 1], ys[b + 1]);
    }
    forall y | y in tail ensures y < |rows| && Before(rows, ys[0], y) {
      var c :| 0 <= c < |tail| && tail[c] == y;
      assert Before(rows, ys[0], ys[c + 1]);
    }
  }

  lemma OneInTimeOrder(rows: seq<Receive>, x: nat)
    requires x < |rows|
    ensures InTimeOrder(rows, [x])
  {
  }

  lemma HeadInTimeOrder(rows: seq<Receive>, y: nat, rest: seq<nat>)
    requires y < |rows| && InTimeOrder(rows, rest)
    requires forall x :: x in rest ==> x < |rows| && Before(rows, y, x)
    ensures InTimeOrder(rows, [y] + rest)
  {
    hide Before;
    var ys := [y] + rest;
    forall a, b | 0 <= a < b < |ys| ensures ys[a] < |rows| && ys[b] < |rows| && Before(rows, ys[a], ys[b]) {
      if a == 0 { assert ys[b] in rest; } else { assert Before(rows, rest[a - 1], rest[b - 1]); }
    }
  }

  lemma {:induction false} InsertKeepsTimeOrder(rows: seq<Receive>, x: nat, ys: seq<nat>)
    requires InTimeOrder(rows, ys) && x < |rows| && forall y :: y in ys ==> x < y
    ensures InTimeOrder(rows, Insert(TimeKey(rows), x, ys))
  {
    hide InTimeOrder;
    var key := TimeKey(rows);
    if ys == [] {
      OneInTimeOrder(rows, x);
    } else if key(x) <= key(ys[0]) {
      TailInTimeOrder(rows, ys);
      assert forall y :: y in ys ==> y == ys[0] || y in ys[1..];
      HeadInTimeOrder(rows, x, ys);
    } else {
      TailInTimeOrder(rows, ys);
      assert forall y :: y in ys[1..] ==> y in ys;
      InsertKeepsTimeOrder(rows, x, ys[1..]);
      InsertIsPermutation(key, x, ys[1..]);
      var rest := Insert(key, x, ys[1..]);
      forall y | y in rest ensures y < |rows| && Before(rows, ys[0], y) {
        assert y in multiset(rest);
        assert y == x || y in ys[1..];
      }
      HeadInTimeOrder(rows, ys[0], rest);
    }
  }

  lemma {:induction false} SortGivesTimeOrder(rows: seq<Receive>, ps: seq<nat>)
    requires Positions(rows, ps) && Increasing(ps)
    ensures InTimeOrder(rows, StableSort(TimeKey(rows), ps))
  {
    if ps != [] {
      var sorted := StableSort(TimeKey(rows), ps[1..]);
      SortGivesTimeOrder(rows, ps[1..]);
      SameElements(TimeKey(rows), ps[1..]);
      forall y | y in sorted ensures ps[0] < y {
        assert y in multiset(sorted) && y in ps[1..];
        var c :| 0 <= c < |ps[1..]| && ps[1..][c] == y;
        assert ps[0] < ps[c + 1];
      }
      InsertKeepsTimeOrder(rows, ps[0], sorted);
    }
  }

  /** The `i`-th listed row is more than the threshold after all rows listed before it. */
  predicate FarFromEarlier(rows: seq<Receive>, ps: seq<nat>, i: nat)
    requires Positions(rows, ps) && i < |ps|
  {
    forall a :: 0 <= a < i ==> rows[ps[i]].ts - rows[ps[a]].ts > NEAR_COINCIDENT_NS
  }

  lemma LastIsFar(rows: seq<Receive>, ps: seq<nat>)
    requires InTimeOrder(rows, ps) && |ps| > 1
    ensures var n := |ps| - 1;
            FarFromEarlier(rows, ps, n) <==> Gap(rows[ps[n]].ts, rows[ps[n - 1]].ts) > NEAR_COINCIDENT_NS
  {
    var n := |ps| - 1;
    assert Before(rows, ps[n - 1], ps[n]);
    assert forall a :: 0 <= a < n - 1 ==> Before(rows, ps[a], ps[n - 1]);
  }

  /** In a time-ordered list, looking at the previous row only is enough. */
  lemma {:induction false} KeepHeadsMeaning(rows: seq<Receive>, ps: seq<nat>)
    requires InTimeOrder(rows, ps)
    ensures forall p :: p in KeepHeads(rows, ps) ==> p in ps
    ensures forall i :: 0 <= i < |ps| ==> (ps[i] in KeepHeads(rows, ps) <==> FarFromEarlier(rows, ps, i))
  {
    if ps != [] {
      var n := |ps| - 1;
      WithoutLast(rows, ps);
      KeepHeadsMeaning(rows, ps[..n]);
      KeepHeadsStep(rows, ps);
      hide KeepHeads, FarFromEarlier, InTimeOrder;
      OneMoreHead(rows, ps, KeepHeads(rows, ps[..n]), KeepHeads(rows, ps));
    }
  }

  lemma OneMoreHead(rows: seq<Receive>, ps: seq<nat>, before: seq<nat>, kept: seq<nat>)
    requires Positions(rows, ps) && ps != [] && ps[|ps| - 1] !in ps[..|ps| - 1]
    requires forall p :: p in before ==> p in ps[..|ps| - 1]
    requires forall i :: 0 <= i < |ps| - 1 ==>
      (ps[..|ps| - 1][i] in before <==> FarFromEarlier(rows, ps[..|ps| - 1], i))
      && (FarFromEarlier(rows, ps[..|ps| - 1], i) <==> FarFromEarlier(rows, ps, i))
    requires forall p :: p in kept <==> p in before || (p == ps[|ps| - 1] && FarFromEarlier(rows, ps, |ps| - 1))
    ensures forall p :: p in kept ==> p in ps
    ensures forall i :: 0 <= i < |ps| ==> (ps[i] in kept <==> FarFromEarlier(rows, ps, i))
  {
    hide FarFromEarlier;
    var n := |ps| - 1;
    forall i | 0 <= i < |ps| ensures ps[i] in kept <==> FarFromEarlier(rows, ps, i) {
      if i < n {
        assert ps[..n][i] == ps[i] && ps[i] in ps[..n];
      }
    }
  }

  lemma KeepHeadsStep(rows: seq<Receive>, ps: seq<nat>)
    requires InTimeOrder(rows, ps) && ps != []
    ensures var n := |ps| - 1;
            forall p :: p in KeepHeads(rows, ps) <==>
              p in KeepHeads(rows, ps[..n]) || (p == ps[n] && FarFromEarlier(rows, ps, n))
  {
    var n := |ps| - 1;
    if n > 0 {
      LastIsFar(rows, ps);
    } else {
      assert FarFromEarlier(rows, ps, n);
    }
    hide FarFromEarlier, InTimeOrder;
  }

  lemma WithoutLast(rows: seq<Receive>, ps: seq<nat>)
    requires InTimeOrder(rows, ps) && ps != []
    ensures InTimeOrder(rows, ps[..|ps| - 1]) && ps[|ps| - 1] !in ps[..|ps| - 1]
    ensures forall i :: 0 <= i < |ps| - 1 ==> (FarFromEarlier(rows, ps[..|ps| - 1], i) <==> FarFromEarlier(rows, ps, i))
  {
    var n := |ps| - 1;
    var short := ps[..n];
    forall a, b | 0 <= a < b < n ensures Before(rows, short[a], short[b]) {
      assert Before(rows, ps[a], ps[b]);
    }
    forall a | 0 <= a < n ensures short[a] != ps[n] {
      assert Before(rows, ps[a], ps[n]);
    }
    forall i | 0 <= i < n ensures FarFromEarlier(rows, short, i) <==> FarFromEarlier(rows, ps, i) {
      assert forall a :: 0 <= a <= i ==> short[a] == ps[a];
    }
  }

  lemma EarlierIsListedEarlier(rows: seq<Receive>, ps: seq<nat>, a: nat, c: nat)
    requires InTimeOrder(rows, ps) && a < |ps| && c < |ps| && Before(rows, ps[a], ps[c])
    ensures a < c
  {
  }

  /** The shift-and-compare filter keeps exactly the chain heads. */
  lemma SurvivorsAreTheChainHeads(rows: seq<Receive>, i: nat)
    requires i < |rows|
    ensures i in Survivors(rows) <==> IsHead(rows, i)
  {
    var k := rows[i].key;
    var ps, sorted := PositionsOf(rows, k), Chronological(rows, k);
    SortGivesTimeOrder(rows, ps);
    SameElements(TimeKey(rows), ps);
    KeepHeadsMeaning(rows, sorted);
    hide KeepHeads, StableSort, PositionsOf, Chronological;
    assert i in sorted;
    var c :| 0 <= c < |sorted| && sorted[c] == i;
    forall j | 0 <= j < |rows| && rows[j].key == k && Before(rows, j, i)
      ensures exists a :: 0 <= a < c && sorted[a] == j
    {
      assert j in sorted;
      var a :| 0 <= a < |sorted| && sorted[a] == j;
      EarlierIsListedEarlier(rows, sorted, a, c);
    }
    forall a | 0 <= a < c ensures rows[sorted[a]].key == k && Before(rows, sorted[a], i) {
      assert sorted[a] in sorted && sorted[a] in ps;
      assert Before(rows, sorted[a], sorted[c]);
    }
  }

  /** Survivors of one key are pairwise more than the threshold apart. */
  lemma SurvivorsAreFarApart(rows: seq<Receive>, i: nat, j: nat)
    requires i in Survivors(rows) && j in Survivors(rows) && i != j
    requires rows[i].key == rows[j].key
    ensures Gap(rows[i].ts, rows[j].ts) > 100_000
  {
    SurvivorsAreTheChainHeads(rows, i);
    SurvivorsAreTheChainHeads(rows, j);
    assert Before(rows, i, j) || Before(rows, j, i);
  }

  /** A chain: rows of one key, each at most the threshold after the one before. */
  predicate IsChain(rows: seq<Receive>, chain: seq<nat>) {
    && chain != [] && Positions(rows, chain)
    && (forall a :: 0 <= a < |chain| ==> rows[chain[a]].key == rows[chain[0]].key)
    && forall a :: 0 <= a < |chain| - 1 ==>
         Before(rows, chain[a], chain[a + 1]) && rows[chain[a + 1]].ts - rows[chain[a]].ts <= NEAR_COINCIDENT_NS
  }

  /** Every row is reached from a survivor by such a chain: nothing is dropped without a surviving
      head. */
  lemma {:induction false} EveryRowHasASurvivingHead(rows: seq<Receive>, i: nat, bound: nat) returns (chain: seq<nat>)
    requires i < |rows|
    requires bound == |set j | 0 <= j < |rows| && Before(rows, j, i)|
    ensures IsChain(rows, chain)
    ensures chain[|chain| - 1] == i && chain[0] in Survivors(rows)
    decreases bound
  {
    SurvivorsAreTheChainHeads(rows, i);
    hide Survivors;
    if i in Survivors(rows) {
      chain := [i];
    } else {
      var j :| 0 <= j < |rows| && rows[j].key == rows[i].key && Before(rows, j, i)
        && rows[i].ts - rows[j].ts <= NEAR_COINCIDENT_NS;
      var beforeJ := set x | 0 <= x < |rows| && Before(rows, x, j);
      var beforeI := set x | 0 <= x < |rows| && Before(rows, x, i);
      assert j in beforeI && j !in beforeJ && beforeJ <= beforeI;
      StrictSubsetIsSmaller(beforeJ, beforeI, j);
      var start := EveryRowHasASurvivingHead(rows, j, |beforeJ|);
      chain := start + [i];
      ChainExtends(rows, start, i);
    }
  }

  lemma ChainExtends(rows: seq<Receive>, chain: seq<nat>, i: nat)
    requires IsChain(rows, chain) && i < |rows| && rows[i].key == rows[chain[0]].key
    requires Before(rows, chain[|chain| - 1], i) && rows[i].ts - rows[chain[|chain| - 1]].ts <= NEAR_COINCIDENT_NS
    ensures IsChain(rows, chain + [i]) && (chain + [i])[0] == chain[0]
  {
  }

  lemma StrictSubsetIsSmaller(a: set<nat>, b: set<nat>, x: nat)
    requires a <= b && x in b && x !in a
    ensures |a| < |b|
  {
    assert a <= b - {x};
    SubsetIsNotLarger(a, b - {x});
  }

  /** The rows at the positions of an increasing list. */
  function Select(rows: seq<Receive>, ps: seq<nat>): (r: seq<Receive>)
    requires Positions(rows, ps)
    ensures |r| == |ps|
  {
    seq(|ps|, i requires 0 <= i < |ps| => rows[ps[i]])
  }

  /** A head stays a head among some of the rows. */
  lemma HeadStaysHead(rows: seq<Receive>, ps: seq<nat>, i: nat)
    requires Positions(rows, ps) && Increasing(ps) && i < |ps| && IsHead(rows, ps[i])
    ensures IsHead(Select(rows, ps), i)
  {
    var kept := Select(rows, ps);
    forall j | 0 <= j < |kept| && kept[j].key == kept[i].key && Before(kept, j, i)
      ensures kept[i].ts - kept[j].ts > NEAR_COINCIDENT_NS
    {
      assert Before(rows, ps[j], ps[i]);
    }
  }

  /** Filtering the survivors again removes nothing. */
  lemma DedupeIsIdempotent(rows: seq<Receive>, ps: seq<nat>, i: nat)
    requires Positions(rows, ps) && Increasing(ps) && forall a :: 0 <= a < |ps| ==> ps[a] in Survivors(rows)
    requires i < |ps|
    ensures i in Survivors(Select(rows, ps))
  {
    hide Survivors, IsHead, Select, Increasing;
    SurvivorsAreTheChainHeads(rows, ps[i]);
    HeadStaysHead(rows, ps, i);
    SurvivorsAreTheChainHeads(Select(rows, ps), i);
  }

  /** Which (key, time) rows survive depends only on the rows present, not on their order. */
  lemma SurvivalIgnoresOrder(rows: seq<Receive>, rows': seq<Receive>, r: Receive)
    requires forall x :: x in rows <==> x in rows'
    ensures (exists i :: i in Survivors(rows) && rows[i] == r) <==> (exists i :: i in Survivors(rows') && rows'[i] == r)
  {
    SurvivalOfARow(rows, r);
    SurvivalOfARow(rows', r);
  }

  /** A (key, time) row survives iff it is present and no row of its key lies in the 100
      microseconds before it. */
  lemma SurvivalOfARow(rows: seq<Receive>, r: Receive)
    ensures (exists i :: i in Survivors(rows) && rows[i] == r) <==>
      r in rows && forall x :: x in rows && x.key == r.key && x.ts < r.ts ==> r.ts - x.ts > NEAR_COINCIDENT_NS
  {
    if i :| i in Survivors(rows) && rows[i] == r {
      SurvivorsAreTheChainHeads(rows, i);
      forall x | x in rows && x.key == r.key && x.ts < r.ts ensures r.ts - x.ts > NEAR_COINCIDENT_NS {
        var j :| 0 <= j < |rows| && rows[j] == x;
        assert Before(rows, j, i);
      }
    }
    if r in rows && forall x :: x in rows && x.key == r.key && x.ts < r.ts ==> r.ts - x.ts > NEAR_COINCIDENT_NS {
      var i := FirstPosition(rows, r);
      forall j | 0 <= j < |rows| && rows[j].key == r.key && Before(rows, j, i)
        ensures r.ts - rows[j].ts > NEAR_COINCIDENT_NS
      {
        assert rows[j] in rows;
        assert j < i ==> rows[j] != r;
      }
      SurvivorsAreTheChainHeads(rows, i);
    }
  }

  lemma {:induction false} FirstPosition(rows: seq<Receive>, r: Receive) returns (i: nat)
    requires r in rows
    ensures i < |rows| && rows[i] == r && forall j :: 0 <= j < i ==> rows[j] != r
  {
    if rows[0] == r {
      i := 0;
    } else {
      i := FirstPosition(rows[1..], r);
      i := i + 1;
    }
  }
}
