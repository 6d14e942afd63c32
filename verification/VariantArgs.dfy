/** `--variant-arg` overrides: parsed in command-line order, resolved for one variant, merged over
    the variant's own table, and reported with their provenance. */
module VariantArgs {
  import opened Options
  import opened Bytes
  import opened Glob

  type Str = seq<Byte>

  const DOT: nat := 46
  const EQUALS: nat := 61

  /** A TOML value; all that is not text is known by its printed form. */
  datatype Value = Text(text: Str) | Printed(text: Str)

  datatype Entry = Entry(selector: Str, key: Str, value: Value)

  // ----- parsing -----

  /** `split_once`. */
  function SplitOnce(s: Str, sep: Byte): Option<(Str, Str)> {
    if s == [] then None
    else if s[0] == sep then Some(([], s[1..]))
    else match SplitOnce(s[1..], sep)
      case None => None
      case Some((a, b)) => Some(([s[0]] + a, b))
  }

  lemma {:induction false} SplitOnceSplits(s: Str, sep: Byte)
    ensures SplitOnce(s, sep).None? <==> sep !in s
    ensures SplitOnce(s, sep).Some? ==> var (a, b) := SplitOnce(s, sep).value; s == a + [sep] + b && sep !in a
  {
    if s != [] {
      assert s == [s[0]] + s[1..];
      SplitOnceSplits(s[1..], sep);
    }
  }

  lemma {:induction false} SplitIsUnique(s: Str, sep: Byte, a: Str, b: Str)
    requires s == a + [sep] + b && sep !in a
    ensures SplitOnce(s, sep) == Some((a, b))
  {
    if a == [] {
      assert s[1..] == b;
    } else {
      assert s[1..] == a[1..] + [sep] + b;
      SplitIsUnique(s[1..], sep, a[1..], b);
      assert a == [a[0]] + a[1..];
    }
  }

  /** `s` is written `selector.key=value`. */
  predicate Reads(s: Str, e: Entry) {
    && e.value.Text? && s == e.selector + ['.' as Byte] + (e.key + ['=' as Byte] + e.value.text)
    && e.selector != [] && DOT !in e.selector && e.key != [] && EQUALS !in e.key
  }

  ghost predicate Readable(s: Str) { exists e :: Reads(s, e) }

  datatype Fault = MissingDot | EmptySelector | MissingEquals | EmptyKey

  datatype EntryResult = Parsed(entry: Entry) | Malformed(fault: Fault)

  function ParseEntry(s: Str): EntryResult {
    match SplitOnce(s, DOT)
    case None => Malformed(MissingDot)
    case Some((selector, rest)) =>
      if selector == [] then Malformed(EmptySelector)
      else match SplitOnce(rest, EQUALS)
        case None => Malformed(MissingEquals)
        case Some((key, value)) =>
          if key == [] then Malformed(EmptyKey) else Parsed(Entry(selector, key, Text(value)))
  }

  /** What each verdict says about the text: a parsed entry is the only reading, a fault is named by
      what is missing, and there is then no reading. */
  predicate Verdict(s: Str, r: EntryResult) {
    match r
    case Parsed(e) => Reads(s, e)
    case Malformed(MissingDot) => DOT !in s
    case Malformed(EmptySelector) => s != [] && s[0] == DOT
    case Malformed(MissingEquals) => exists i :: 0 < i < |s| && s[i] == DOT && DOT !in s[..i] && EQUALS !in s[i + 1..]
    case Malformed(EmptyKey) => exists i :: 0 < i < |s| - 1 && s[i] == DOT && DOT !in s[..i] && s[i + 1] == EQUALS
  }

  lemma ParseEntryIsRight(s: Str)
    ensures Verdict(s, ParseEntry(s))
  {
    SplitOnceSplits(s, DOT);
    if SplitOnce(s, DOT).Some? {
      var (selector, rest) := SplitOnce(s, DOT).value;
      var i := |selector|;
      assert s[..i] == selector && s[i] == DOT && s[i + 1..] == rest;
      SplitOnceSplits(rest, EQUALS);
      if SplitOnce(rest, EQUALS).Some? && selector != [] {
        var (key, value) := SplitOnce(rest, EQUALS).value;
        if key == [] {
          assert rest[0] == EQUALS && s[i + 1] == rest[0];
        }
      }
    }
  }

  /** Every text with a reading parses to it: the parser inverts writing `selector.key=value`. */
  lemma ParseEntryIsComplete(s: Str, e: Entry)
    requires Reads(s, e)
    ensures ParseEntry(s) == Parsed(e)
  {
    SplitIsUnique(s, DOT, e.selector, e.key + [EQUALS] + e.value.text);
    SplitIsUnique(e.key + [EQUALS] + e.value.text, EQUALS, e.key, e.value.text);
  }

  datatype ParseResult = Ok(entries: seq<Entry>) | Err(at: nat, fault: Fault)

  /** All entries in command-line order, or the first malformed one. */
  method ParseOverrides(raw: seq<Str>) returns (r: ParseResult)
    ensures r.Ok? ==> |r.entries| == |raw| && forall i :: 0 <= i < |raw| ==> Reads(raw[i], r.entries[i])
    ensures r.Err? ==>
      && r.at < |raw| && Verdict(raw[r.at], Malformed(r.fault)) && !Readable(raw[r.at])
      && (forall i :: 0 <= i < r.at ==> Readable(raw[i]))
  {
    var out: seq<Entry> := [];
    for n := 0 to |raw|
      invariant |out| == n && forall i :: 0 <= i < n ==> Reads(raw[i], out[i])
    {
      ParseEntryIsRight(raw[n]);
      match ParseEntry(raw[n]) {
        case Parsed(e) => out := out + [e];
        case Malformed(fault) =>
          if e :| Reads(raw[n], e) { ParseEntryIsComplete(raw[n], e); }
          forall i | 0 <= i < n ensures Readable(raw[i]) {
            assert Reads(raw[i], out[i]);
          }
          return Err(n, fault);
      }
    }
    return Ok(out);
  }

  // ----- resolving -----

  predicate Applies(e: Entry, variant: Str, key: Str) { GlobMatch(e.selector, variant) && e.key == key }

  /** The selector is the pattern: `*` applies to every variant, a name without symbols to that one. */
  lemma SelectorIsThePattern(e: Entry, b: Byte, variant: Str)
    requires b != '*' as Byte && b != '?' as Byte
    ensures Applies(e.(selector := ['*' as Byte]), variant, e.key)
    ensures Applies(e.(selector := [b]), variant, e.key) <==> variant == [b]
    ensures Applies(e, variant, e.key) ==> !Applies(e, variant, e.key + [b])
  {
    SymbolsMatch(b, variant);
    assert |e.key + [b]| != |e.key|;
  }

  /** Entry `i` is the last one for `key` that applies to the variant. */
  predicate LastFor(entries: seq<Entry>, variant: Str, key: Str, i: int) {
    0 <= i < |entries| && Applies(entries[i], variant, key)
      && forall j :: i < j < |entries| ==> !Applies(entries[j], variant, key)
  }

  type Resolved = map<Str, (Value, Str)>

  /** Each key has the value and the selector of its last applying entry; other keys are absent. */
  ghost predicate IsResolution(entries: seq<Entry>, variant: Str, out: Resolved) {
    && (forall k :: k in out ==>
          exists i :: LastFor(entries, variant, k, i) && out[k] == (entries[i].value, entries[i].selector))
    && (forall i :: 0 <= i < |entries| && GlobMatch(entries[i].selector, variant) ==> entries[i].key in out)
  }

  method ResolveForVariant(entries: seq<Entry>, variant: Str) returns (out: Resolved)
    ensures IsResolution(entries, variant, out)
  {
    hide GlobMatch, IsResolution;
    out := map[];
    NothingResolved(variant);
    assert entries[..0] == [];
    for n := 0 to |entries|
      invariant IsResolution(entries[..n], variant, out)
    {
      assert entries[..n + 1] == entries[..n] + [entries[n]];
      ResolveOneMore(entries[..n], entries[n], variant, out);
      if GlobMatch(entries[n].selector, variant) {
        out := out[entries[n].key := (entries[n].value, entries[n].selector)];
      }
    }
    assert entries[..|entries|] == entries;
  }

  lemma NothingResolved(variant: Str)
    ensures IsResolution([], variant, map[])
  {
  }

  lemma ResolveOneMore(entries: seq<Entry>, e: Entry, variant: Str, out: Resolved)
    requires IsResolution(entries, variant, out)
    ensures IsResolution(entries + [e], variant,
      if GlobMatch(e.selector, variant) then out[e.key := (e.value, e.selector)] else out)
  {
    hide GlobMatch;
    var out' := if GlobMatch(e.selector, variant) then out[e.key := (e.value, e.selector)] else out;
    var all := entries + [e];
    forall k | k in out' ensures exists i :: LastFor(all, variant, k, i) && out'[k] == (all[i].value, all[i].selector) {
      if Applies(e, variant, k) {
        assert LastFor(all, variant, k, |entries|);
      } else {
        var i :| LastFor(entries, variant, k, i) && out[k] == (entries[i].value, entries[i].selector);
        assert LastFor(all, variant, k, i);
      }
    }
  }

  // ----- sorted listings -----

  ghost predicate Ascending(keys: seq<Str>) { forall i, j :: 0 <= i < j < |keys| ==> Less(keys[i], keys[j]) }

  function KeysOf<V>(items: seq<(Str, V)>): seq<Str> { seq(|items|, i requires 0 <= i < |items| => items[i].0) }

  /** The items of `m` in the order of their keys. */
  ghost predicate IsListing<V>(m: map<Str, V>, items: seq<(Str, V)>) {
    && Ascending(KeysOf(items))
    && (forall i :: 0 <= i < |items| ==> items[i].0 in m && m[items[i].0] == items[i].1)
    && (forall k :: k in m ==> k in KeysOf(items))
  }

  /** Two ascending lists of the same keys are the same. */
  lemma {:induction false} AscendingIsUnique(a: seq<Str>, b: seq<Str>)
    requires Ascending(a) && Ascending(b) && forall k :: k in a <==> k in b
    ensures a == b
    decreases |a|
  {
    hide Less;
    assert b == [] || b[0] in b;
    if a != [] {
      assert a[0] in a && a[0] in b;
      SameHead(a, b);
      forall k ensures k in a[1..] <==> k in b[1..] {
        TailKeys(a, k);
        TailKeys(b, k);
      }
      AscendingIsUnique(a[1..], b[1..]);
      assert a == [a[0]] + a[1..] && b == [b[0]] + b[1..];
    }
  }

  lemma TailKeys(a: seq<Str>, k: Str)
    requires Ascending(a) && a != []
    ensures k in a[1..] <==> k in a && k != a[0]
  {
    NotBelowItself(a[0]);
    assert a == [a[0]] + a[1..];
  }

  lemma SameHead(a: seq<Str>, b: seq<Str>)
    requires Ascending(a) && Ascending(b) && a != [] && b != [] && a[0] in b && b[0] in a
    ensures a[0] == b[0]
  {
    hide Less;
    if a[0] != b[0] {
      LessIsTotal(a[0], b[0]);
    }
  }

  function InsertByKey<V>(items: seq<(Str, V)>, item: (Str, V)): seq<(Str, V)> {
    if items == [] then [item]
    else if Less(item.0, items[0].0) then [item] + items
    else [items[0]] + InsertByKey(items[1..], item)
  }

  lemma {:induction false} InsertMembers<V>(items: seq<(Str, V)>, item: (Str, V), x: (Str, V))
    ensures x in InsertByKey(items, item) <==> x in items || x == item
  {
    if items != [] {
      InsertMembers(items[1..], item, x);
      assert items == [items[0]] + items[1..];
    }
  }

  lemma KeyOfMember<V>(items: seq<(Str, V)>, x: (Str, V))
    requires x in items
    ensures exists i :: 0 <= i < |items| && items[i] == x && KeysOf(items)[i] == x.0
    ensures x.0 in KeysOf(items)
  {
    var i :| 0 <= i < |items| && items[i] == x;
    assert KeysOf(items)[i] == x.0;
  }

  lemma FirstIsLeast(keys: seq<Str>, x: Str)
    requires Ascending(keys) && x in keys && keys != []
    ensures x == keys[0] || Less(keys[0], x)
    ensures x in keys[1..] ==> Less(keys[0], x)
  {
    hide Less;
    if x in keys[1..] {
      var i :| 0 <= i < |keys| - 1 && keys[1..][i] == x;
      assert keys[i + 1] == x;
    }
    assert keys == [keys[0]] + keys[1..];
  }

  lemma AscendingCons(k: Str, keys: seq<Str>)
    requires Ascending(keys) && forall x :: x in keys ==> Less(k, x)
    ensures Ascending([k] + keys)
  {
    hide Less;
  }

  lemma {:induction false} InsertKeepsAscending<V>(items: seq<(Str, V)>, item: (Str, V))
    requires Ascending(KeysOf(items)) && item.0 !in KeysOf(items)
    ensures Ascending(KeysOf(InsertByKey(items, item)))
  {
    hide Less;
    if items != [] {
      var head, rest := items[0], items[1..];
      assert KeysOf(items) == [head.0] + KeysOf(rest);
      if Less(item.0, head.0) {
        forall x | x in KeysOf(items) ensures Less(item.0, x) {
          if x != head.0 {
            FirstIsLeast(KeysOf(items), x);
            LessIsTransitive(item.0, head.0, x);
          }
        }
        AscendingCons(item.0, KeysOf(items));
        assert KeysOf([item] + items) == [item.0] + KeysOf(items);
      } else {
        var more := InsertByKey(rest, item);
        assert Ascending(KeysOf(rest)) by { assert KeysOf(rest) == KeysOf(items)[1..]; }
        InsertKeepsAscending(rest, item);
        LessIsTotal(item.0, head.0);
        forall x | x in KeysOf(more) ensures Less(head.0, x) {
          var j :| 0 <= j < |more| && KeysOf(more)[j] == x;
          InsertMembers(rest, item, more[j]);
          if more[j] != item {
            KeyOfMember(rest, more[j]);
            FirstIsLeast(KeysOf(items), x);
          }
        }
        AscendingCons(head.0, KeysOf(more));
        assert KeysOf([head] + more) == [head.0] + KeysOf(more);
      }
    } else {
      assert KeysOf([item]) == [item.0];
    }
  }

  lemma ListingOneMore<V>(m: map<Str, V>, items: seq<(Str, V)>, k: Str, v: V)
    requires IsListing(m, items) && k !in m
    ensures IsListing(m[k := v], InsertByKey(items, (k, v)))
  {
    hide Less, Ascending, InsertByKey;
    assert k !in KeysOf(items);
    InsertKeepsAscending(items, (k, v));
    var more := InsertByKey(items, (k, v));
    forall i | 0 <= i < |more| ensures more[i].0 in m[k := v] && m[k := v][more[i].0] == more[i].1 {
      InsertMembers(items, (k, v), more[i]);
      if more[i] != (k, v) {
        var j :| 0 <= j < |items| && items[j] == more[i];
      }
    }
    forall x | x in m[k := v] ensures x in KeysOf(more) {
      var item := if x == k then (k, v) else (x, m[x]);
      if x != k {
        var i :| 0 <= i < |items| && KeysOf(items)[i] == x;
        assert items[i] == item;
      }
      InsertMembers(items, (k, v), item);
      KeyOfMember(more, item);
    }
  }

  /** The entries of a map, sorted by key. */
  method SortedEntries<V>(m: map<Str, V>) returns (items: seq<(Str, V)>)
    ensures IsListing(m, items)
  {
    hide IsListing;
    items := [];
    var todo := m.Keys;
    EmptyListing<V>();
    ghost var done: map<Str, V> := map[];
    while todo != {}
      invariant todo <= m.Keys && done == map k | k in m && k !in todo :: m[k]
      invariant IsListing(done, items)
      decreases todo
    {
      var k :| k in todo;
      todo := todo - {k};
      ListingOneMore(done, items, k, m[k]);
      items := InsertByKey(items, (k, m[k]));
      done := done[k := m[k]];
    }
    assert done == m;
  }

  lemma EmptyListing<V>()
    ensures IsListing<V>(map[], [])
  {
  }

  // ----- merging and reporting -----

  type Table = map<Str, Value>

  function OrEmpty<V>(m: Option<map<Str, V>>): map<Str, V> { if m.Some? then m.value else map[] }

  /** The table with the overrides over it. */
  function Overlaid<V>(table: map<Str, V>, overrides: map<Str, V>): map<Str, V> {
    map k | k in table.Keys + overrides.Keys :: if k in overrides then overrides[k] else table[k]
  }

  /** Insert all items of `from` into `into`. */
  method InsertAll<V>(into: map<Str, V>, from: map<Str, V>) returns (out: map<Str, V>)
    ensures out == Overlaid(into, from)
  {
    out := into;
    var todo := from.Keys;
    while todo != {}
      invariant todo <= from.Keys
      invariant out == map k | k in into.Keys + (from.Keys - todo) :: if k in from.Keys - todo then from[k] else into[k]
      decreases todo
    {
      var k :| k in todo;
      todo := todo - {k};
      out := out[k := from[k]];
    }
  }

  method MergeSpecificWithOverrides(table: Option<Table>, overrides: Option<Table>) returns (items: seq<(Str, Value)>)
    ensures IsListing(Overlaid(OrEmpty(table), OrEmpty(overrides)), items)
  {
    var merged: Table := map[];
    merged := InsertAll(merged, OrEmpty(table));
    assert merged == OrEmpty(table);
    merged := InsertAll(merged, OrEmpty(overrides));
    items := SortedEntries(merged);
  }

  function DropSelectors(resolved: Resolved): Table { map k | k in resolved :: resolved[k].0 }

  datatype Provenance = FromToml | FromCli

  datatype Report = Report(value: Str, provenance: Provenance, selector: Option<Str>)

  function TomlReports(table: Table): map<Str, Report> { map k | k in table :: Report(table[k].text, FromToml, None) }

  function CliReports(resolved: Resolved): map<Str, Report> {
    map k | k in resolved :: Report(resolved[k].0.text, FromCli, Some(resolved[k].1))
  }

  method SpecificArgProvenance(table: Option<Table>, resolved: Option<Resolved>) returns (items: seq<(Str, Report)>)
    ensures IsListing(Overlaid(TomlReports(OrEmpty(table)), CliReports(OrEmpty(resolved))), items)
  {
    var entries: map<Str, Report> := map[];
    entries := InsertAll(entries, TomlReports(OrEmpty(table)));
    assert entries == TomlReports(OrEmpty(table));
    entries := InsertAll(entries, CliReports(OrEmpty(resolved)));
    items := SortedEntries(entries);
  }

  predicate ComesFrom(e: Entry, forwarded: Value, r: Report) {
    forwarded == e.value && r.selector == Some(e.selector)
  }

  /** What is reported for an item that is forwarded: the value of the key's last applying entry and
      its selector, or the table's value. */
  ghost predicate RightlyReported(table: Table, entries: seq<Entry>, variant: Str, forwarded: (Str, Value),
                                  reported: (Str, Report)) {
    var (k, r) := reported;
    && forwarded.0 == k && r.value == forwarded.1.text
    && (if exists i :: LastFor(entries, variant, k, i) then
          r.provenance == FromCli
          && exists i :: LastFor(entries, variant, k, i) && ComesFrom(entries[i], forwarded.1, r)
        else k in table && forwarded.1 == table[k] && r.provenance == FromToml && r.selector == None)
  }

  /** The arguments forwarded to a variant and the provenance lines agree item by item, and both say
      what the command line means. */
  lemma ForwardedAndReportedAgree(table: Table, entries: seq<Entry>, variant: Str, resolved: Resolved,
                                  forwarded: seq<(Str, Value)>, reported: seq<(Str, Report)>)
    requires IsResolution(entries, variant, resolved)
    requires IsListing(Overlaid(table, DropSelectors(resolved)), forwarded)
    requires IsListing(Overlaid(TomlReports(table), CliReports(resolved)), reported)
    ensures |forwarded| == |reported|
    ensures forall i :: 0 <= i < |forwarded| ==> RightlyReported(table, entries, variant, forwarded[i], reported[i])
  {
    hide Ascending, IsResolution, RightlyReported;
    KeysOfListing(Overlaid(table, DropSelectors(resolved)), forwarded);
    KeysOfListing(Overlaid(TomlReports(table), CliReports(resolved)), reported);
    AscendingIsUnique(KeysOf(forwarded), KeysOf(reported));
    forall i | 0 <= i < |forwarded| ensures RightlyReported(table, entries, variant, forwarded[i], reported[i]) {
      assert KeysOf(forwarded)[i] == KeysOf(reported)[i];
      ItemRightlyReported(table, entries, variant, resolved, forwarded[i], reported[i]);
    }
  }

  lemma KeysOfListing<V>(m: map<Str, V>, items: seq<(Str, V)>)
    requires IsListing(m, items)
    ensures forall k :: k in KeysOf(items) <==> k in m
  {
  }

  lemma ItemRightlyReported(table: Table, entries: seq<Entry>, variant: Str, resolved: Resolved,
                            forwarded: (Str, Value), reported: (Str, Report))
    requires IsResolution(entries, variant, resolved)
    requires forwarded.0 == reported.0 && forwarded.0 in table.Keys + resolved.Keys
    requires forwarded.1 == Overlaid(table, DropSelectors(resolved))[forwarded.0]
    requires reported.1 == Overlaid(TomlReports(table), CliReports(resolved))[forwarded.0]
    ensures RightlyReported(table, entries, variant, forwarded, reported)
  {
    hide GlobMatch;
    var k := forwarded.0;
    if i :| LastFor(entries, variant, k, i) {
      assert entries[i].key in resolved;
    }
  }
}
