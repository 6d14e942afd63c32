/** RFC 3339 timestamps (section 5.6): the nanosecond printer of the runner and the parser of the
    analysis. Instants are nanoseconds since the Unix epoch. */
module Timestamps {
  import opened Options
  import opened Integers
  import opened Calendar

  const NS_PER_SECOND := 1_000_000_000
  const SECONDS_PER_DAY := 86_400

  // ----- decimal numerals -----

  predicate IsDigit(c: char) { '0' <= c <= '9' }

  function DigitValue(c: char): nat
    requires IsDigit(c)
  {
    c as int - '0' as int
  }

  function Digit(n: nat): char
    requires n < 10
  {
    ('0' as int + n) as char
  }

  predicate AllDigits(s: string) { forall i :: 0 <= i < |s| ==> IsDigit(s[i]) }

  function Value(s: string): nat
    requires AllDigits(s)
  {
    if s == "" then 0 else 10 * Value(s[..|s| - 1]) + DigitValue(s[|s| - 1])
  }

  function Pow10(w: nat): nat { if w == 0 then 1 else 10 * Pow10(w - 1) }

  /** `n` in exactly `w` decimal digits. */
  function Padded(n: nat, w: nat): (s: string)
    ensures |s| == w && AllDigits(s)
  {
    if w == 0 then "" else Padded(n / 10, w - 1) + [Digit(n % 10)]
  }

  lemma {:induction false} PaddedValue(n: nat, w: nat)
    requires n < Pow10(w)
    ensures Value(Padded(n, w)) == n
  {
    if w > 0 {
      PaddedValue(n / 10, w - 1);
      var s := Padded(n, w);
      assert s[..|s| - 1] == Padded(n / 10, w - 1);
    }
  }

  predicate IsSign(c: char) { c == '+' || c == '-' }

  predicate IsSpace(c: char) { c == ' ' || '\U{09}' <= c <= '\U{0D}' }

  function Stripped(s: string): string {
    if s == "" then ""
    else if IsSpace(s[0]) then Stripped(s[1..])
    else if IsSpace(s[|s| - 1]) then Stripped(s[..|s| - 1])
    else s
  }

  function WithoutUnderscores(s: string): (r: string)
    requires forall i :: 0 <= i < |s| ==> IsDigit(s[i]) || s[i] == '_'
    ensures AllDigits(r)
  {
    if s == "" then ""
    else WithoutUnderscores(s[..|s| - 1]) + if s[|s| - 1] == '_' then "" else [s[|s| - 1]]
  }

  /** Digits, single underscores allowed between them. */
  function Unsigned(s: string): Option<nat> {
    if s != "" && IsDigit(s[0]) && IsDigit(s[|s| - 1])
       && (forall i :: 0 <= i < |s| ==> IsDigit(s[i]) || s[i] == '_')
       && (forall i :: 0 < i < |s| && s[i] == '_' ==> IsDigit(s[i - 1]))
    then Some(Value(WithoutUnderscores(s))) else None
  }

  /** Python's `int(s)` on ASCII text: spaces around, a sign, digits with underscores. */
  function Number(s: string): Option<int> {
    var t := Stripped(s);
    if t == "" then None
    else
      match Unsigned(if IsSign(t[0]) then t[1..] else t)
      case None => None
      case Some(n) => Some(if t[0] == '-' then -(n as int) else n)
  }

  lemma {:induction false} NothingToRemove(s: string)
    requires AllDigits(s)
    ensures WithoutUnderscores(s) == s
  {
    if s != "" {
      NothingToRemove(s[..|s| - 1]);
    }
  }

  lemma NumberOfDigits(s: string)
    requires s != "" && AllDigits(s)
    ensures Number(s) == Some(Value(s))
  {
    hide Unsigned;
    UnsignedOfDigits(s);
    assert IsDigit(s[0]) && IsDigit(s[|s| - 1]);
  }

  lemma UnsignedOfDigits(s: string)
    requires s != "" && AllDigits(s)
    ensures Unsigned(s) == Some(Value(s))
  {
    hide Value, WithoutUnderscores;
    NothingToRemove(s);
  }

  // ----- the printer: format_ts -----

  function TwoDigits(n: nat): string { Padded(n, 2) }

  function CivilText(d: Date, hh: nat, mm: nat, ss: nat): string {
    Padded(d.year, 4) + "-" + TwoDigits(d.month) + "-" + TwoDigits(d.day) + "T"
    + TwoDigits(hh) + ":" + TwoDigits(mm) + ":" + TwoDigits(ss)
  }

  /** `YYYY-MM-DDTHH:MM:SS` of a second count since the epoch. */
  function CivilSeconds(secs: int): string
    requires secs / SECONDS_PER_DAY + UNIX_EPOCH_DAY >= 0
  {
    var t := secs % SECONDS_PER_DAY;
    CivilText(DateOf(secs / SECONDS_PER_DAY + UNIX_EPOCH_DAY), t / 3600, t / 60 % 60, t % 60)
  }

  function FormatTs(ns: int): string
    requires FitsI64(ns)
  {
    CivilSeconds(ns / NS_PER_SECOND) + "." + Padded(ns % NS_PER_SECOND, 9) + "Z"
  }

  // ----- the parser: parse_timestamp_ns -----

  /** One- or two-digit field of `strptime`, as much as possible, with its range. */
  function ReadField(s: string, i: nat, lo: nat, hi: nat): (r: Option<(nat, nat)>)
    ensures r.Some? ==> lo <= r.value.0 <= hi && i < r.value.1 <= |s|
  {
    if i < |s| && IsDigit(s[i]) then
      var (v, next) :=
        if i + 1 < |s| && IsDigit(s[i + 1]) then (10 * DigitValue(s[i]) + DigitValue(s[i + 1]), i + 2)
        else (DigitValue(s[i]), i + 1);
      if lo <= v <= hi then Some((v, next)) else None
    else None
  }

  /** The day of the month may also be one digit after a space. */
  function ReadDay(s: string, i: nat): (r: Option<(nat, nat)>)
    ensures r.Some? ==> 1 <= r.value.0 <= 31 && i < r.value.1 <= |s|
  {
    if i + 1 < |s| && s[i] == ' ' && IsDigit(s[i + 1]) && s[i + 1] != '0' then Some((DigitValue(s[i + 1]), i + 2))
    else ReadField(s, i, 1, 31)
  }

  predicate Literal(s: string, i: nat, c: char) { i < |s| && s[i] == c }

  /** `strptime(s, "%Y-%m-%dT%H:%M:%S")` in UTC, as seconds since the epoch. */
  function ParseCivil(s: string): Option<int> {
    if |s| < 5 || !AllDigits(s[..4]) || s[4] != '-' then None else
    var y := Value(s[..4]);
    match ReadField(s, 5, 1, 12) case None => None case Some((m, i)) =>
    if !Literal(s, i, '-') then None else
    match ReadDay(s, i + 1) case None => None case Some((d, j)) =>
    if !Literal(s, j, 'T') && !Literal(s, j, 't') then None else
    match ReadField(s, j + 1, 0, 23) case None => None case Some((hh, k)) =>
    if !Literal(s, k, ':') then None else
    match ReadField(s, k + 1, 0, 59) case None => None case Some((mm, l)) =>
    if !Literal(s, l, ':') then None else
    match ReadField(s, l + 1, 0, 59) case None => None case Some((ss, end)) =>
    if end != |s| || !ValidDate(Date(y, m, d)) then None else
    Some((DayNumber(Date(y, m, d)) - UNIX_EPOCH_DAY) * SECONDS_PER_DAY + hh * 3600 + mm * 60 + ss)
  }

  /** Index of the first `c` in `s` at or after `i`. */
  function IndexFrom(s: string, c: char, i: nat): (r: Option<nat>)
    requires i <= |s|
    ensures r.Some? ==> i <= r.value < |s| && s[r.value] == c && c !in s[i..r.value]
    ensures r.None? ==> c !in s[i..]
    decreases |s| - i
  {
    if i == |s| then None
    else if s[i] == c then Some(i)
    else
      var r := IndexFrom(s, c, i + 1);
      assert s[i..] == [s[i]] + s[i + 1..];
      assert r.Some? ==> s[i..r.value] == [s[i]] + s[i + 1..r.value];
      r
  }

  function Zeros(k: nat): string { seq(k, _ => '0') }

  /** Nine fraction digits: longer fractions are cut, shorter ones padded with zeros. */
  function NineDigits(frac: string): (s: string)
    ensures |s| == 9
  {
    if |frac| >= 9 then frac[..9] else frac + Zeros(9 - |frac|)
  }

  /** Seconds plus fraction, for a timestamp without its zone, shifted by the zone. */
  function ParseLocal(s: string, zoneSeconds: int): Option<int> {
    var dot := IndexFrom(s, '.', 0);
    var dateTime := if dot.Some? then s[..dot.value] else s;
    var frac := if dot.Some? then s[dot.value + 1..] else "";
    match ParseCivil(dateTime)
    case None => None
    case Some(secs) =>
      match if frac == "" then Some(0) else Number(NineDigits(frac))
      case None => None
      case Some(nanos) => Some((secs - zoneSeconds) * NS_PER_SECOND + nanos)
  }

  /** Rightmost sign at or before `i` that can start a zone suffix. */
  function ZoneStart(s: string, i: int): (r: Option<nat>)
    requires i < |s|
    ensures r.Some? ==> 10 <= r.value <= i && r.value > |s| - 7 && IsSign(s[r.value])
    decreases i
  {
    if i <= 0 || i <= |s| - 7 then None
    else if IsSign(s[i]) && i >= 10 then Some(i)
    else ZoneStart(s, i - 1)
  }

  /** Seconds east of UTC of `+HH:MM` / `-HH:MM`; exactly one colon, digits on both sides. */
  function ZoneSeconds(zone: string): Option<int>
    requires zone != ""
  {
    var rest := zone[1..];
    match IndexFrom(rest, ':', 0)
    case None => None
    case Some(colon) =>
      if ':' in rest[colon + 1..] then None else
      match (Number(rest[..colon]), Number(rest[colon + 1..]))
      case (Some(hh), Some(mm)) =>
        var z: int := hh * 3600 + mm * 60;
        Some(if zone[0] == '+' then z else -z)
      case _ => None
  }

  function ParseTimestamp(s: string): Option<int> {
    if s == "" then None
    else if s[|s| - 1] == 'Z' then ParseLocal(s[..|s| - 1], 0)
    else
      match ZoneStart(s, |s| - 1)
      case None => ParseLocal(s, 0)
      case Some(i) =>
        match ZoneSeconds(s[i..])
        case None => None
        case Some(z) => ParseLocal(s[..i], z)
  }

  /** The parser as the analysis runs it: reassigning the remaining text and the zone. */
  method ParseTimestampNs(ts: string) returns (result: Option<int>)
    ensures result == ParseTimestamp(ts)
  {
    hide ParseCivil, Number, NineDigits, IndexFrom, ZoneSeconds;
    if ts == "" {
      return None;
    }
    var zoneSeconds, s := 0, ts;
    if s[|s| - 1] == 'Z' {
      s := s[..|s| - 1];
    } else {
      var i := |s| - 1;
      while i > |s| - 7 && i > 0
        invariant s == ts && zoneSeconds == 0
        invariant i < |s|
        invariant ZoneStart(ts, |ts| - 1) == ZoneStart(ts, i)
        decreases i
      {
        if IsSign(s[i]) && i >= 10 {
          var zone := ZoneSeconds(s[i..]);
          if zone.None? {
            return None;
          }
          zoneSeconds := zone.value;
          s := s[..i];
          break;
        }
        i := i - 1;
      }
    }
    var dot := IndexFrom(s, '.', 0);
    var dateTime, frac := s, "";
    if dot.Some? {
      dateTime, frac := s[..dot.value], s[dot.value + 1..];
    }
    var secs := ParseCivil(dateTime);
    if secs.None? {
      return None;
    }
    var nanos := 0;
    if frac != "" {
      frac := NineDigits(frac);
      var n := Number(frac);
      if n.None? {
        return None;
      }
      nanos := n.value;
    }
    result := Some((secs.value - zoneSeconds) * NS_PER_SECOND + nanos);
  }

  // ----- the laws -----

  lemma {:induction false} IndexOfFirst(s: string, c: char, i: nat, k: nat)
    requires i <= k < |s| && s[k] == c
    requires forall j :: i <= j < k ==> s[j] != c
    ensures IndexFrom(s, c, i) == Some(k)
    decreases k - i
  {
    if i < k {
      IndexOfFirst(s, c, i + 1, k);
    }
  }

  lemma NoIndex(s: string, c: char)
    requires c !in s
    ensures IndexFrom(s, c, 0) == None
  {
  }

  lemma TwoDigitsShape(n: nat)
    requires n < 100
    ensures TwoDigits(n) == [Digit(n / 10), Digit(n % 10)]
  {
    assert Padded(n / 10, 1) == Padded(n / 10 / 10, 0) + [Digit(n / 10 % 10)];
  }

  /** A two-digit field inside a longer text reads back as its number. */
  lemma ReadsTwoDigits(s: string, i: nat, n: nat, lo: nat, hi: nat)
    requires i + 2 <= |s| && s[i..i + 2] == TwoDigits(n) && lo <= n <= hi < 100
    ensures ReadField(s, i, lo, hi) == Some((n, i + 2))
  {
    TwoDigitsShape(n);
    assert s[i] == s[i..i + 2][0] && s[i + 1] == s[i..i + 2][1];
  }

  function SecondsAt(d: Date, hh: nat, mm: nat, ss: nat): int
    requires ValidDate(d)
  {
    (DayNumber(d) - UNIX_EPOCH_DAY) * SECONDS_PER_DAY + hh * 3600 + mm * 60 + ss
  }

  lemma CivilTextLayout(d: Date, hh: nat, mm: nat, ss: nat)
    ensures var s := CivilText(d, hh, mm, ss);
      && |s| == 19 && '.' !in s
      && s[..4] == Padded(d.year, 4) && s[4] == '-' && s[5..7] == TwoDigits(d.month)
      && s[7] == '-' && s[8..10] == TwoDigits(d.day) && s[10] == 'T'
      && s[11..13] == TwoDigits(hh) && s[13] == ':' && s[14..16] == TwoDigits(mm)
      && s[16] == ':' && s[17..19] == TwoDigits(ss)
  {
    var s := CivilText(d, hh, mm, ss);
    assert s[..4] == Padded(d.year, 4);
    assert s[5..7] == TwoDigits(d.month);
    assert s[8..10] == TwoDigits(d.day);
    assert s[11..13] == TwoDigits(hh);
    assert s[14..16] == TwoDigits(mm);
    assert s[17..19] == TwoDigits(ss);
  }

  /** `strptime` undoes `strftime` on every valid civil second of the years 1 to 9999. */
  lemma CivilTextParses(d: Date, hh: nat, mm: nat, ss: nat)
    requires ValidDate(d) && d.year < 10000 && hh < 24 && mm < 60 && ss < 60
    ensures |CivilText(d, hh, mm, ss)| == 19 && '.' !in CivilText(d, hh, mm, ss)
    ensures ParseCivil(CivilText(d, hh, mm, ss)) == Some(SecondsAt(d, hh, mm, ss))
  {
    var s := CivilText(d, hh, mm, ss);
    CivilTextLayout(d, hh, mm, ss);
    hide CivilText, DayNumber, Padded, TwoDigits;
    assert d.day <= 31;
    PaddedValue(d.year, 4) by { assert Pow10(4) == 10000; }
    ReadsTwoDigits(s, 5, d.month, 1, 12);
    ReadsTwoDigits(s, 8, d.day, 1, 31);
    TwoDigitsShape(d.day) by { assert d.day < 100; }
    assert s[8] == s[8..10][0] && ReadDay(s, 8) == ReadField(s, 8, 1, 31);
    ReadsTwoDigits(s, 11, hh, 0, 23);
    ReadsTwoDigits(s, 14, mm, 0, 59);
    ReadsTwoDigits(s, 17, ss, 0, 59);
    hide ReadField, ReadDay;
  }

  lemma CivilSecondsFromParts(secs: int, day: nat, clock: nat)
    requires secs / SECONDS_PER_DAY + UNIX_EPOCH_DAY == day && secs % SECONDS_PER_DAY == clock
    ensures CivilSeconds(secs) == CivilText(DateOf(day), clock / 3600, clock / 60 % 60, clock % 60)
  {
    hide DateOf, CivilText, UNIX_EPOCH_DAY;
  }

  lemma YearBelow10000(d: Date)
    requires ValidDate(d) && DayNumber(d) < DaysBeforeYear(10000)
    ensures d.year < 10000
  {
    DayWithinYear(d);
    if d.year >= 10000 { YearsAreOrdered(10000, d.year); }
  }

  lemma SecondsRejoin(secs: int, d: Date)
    requires ValidDate(d) && secs / SECONDS_PER_DAY + UNIX_EPOCH_DAY == DayNumber(d)
    ensures var t := secs % SECONDS_PER_DAY;
            SecondsAt(d, t / 3600, t / 60 % 60, t % 60) == secs
  {
    hide DayNumber, UNIX_EPOCH_DAY;
    ClockSplits(secs % SECONDS_PER_DAY);
  }

  lemma CivilRoundTrip(secs: int)
    requires 0 <= secs / SECONDS_PER_DAY + UNIX_EPOCH_DAY < DaysBeforeYear(10000)
    ensures |CivilSeconds(secs)| == 19 && '.' !in CivilSeconds(secs)
    ensures ParseCivil(CivilSeconds(secs)) == Some(secs)
  {
    hide ParseCivil, CivilSeconds, CivilText, DaysBeforeYear, DayNumber, DateOf, SecondsAt, UNIX_EPOCH_DAY;
    var day, t := secs / SECONDS_PER_DAY + UNIX_EPOCH_DAY, secs % SECONDS_PER_DAY;
    var d := DateOf(day);
    YearBelow10000(d);
    ClockSplits(t);
    CivilSecondsFromParts(secs, day, t);
    SecondsRejoin(secs, d);
    CivilTextParses(d, t / 3600, t / 60 % 60, t % 60);
  }

  lemma ClockSplits(t: nat)
    requires t < SECONDS_PER_DAY
    ensures t / 3600 < 24 && t / 60 % 60 < 60 && t % 60 < 60
    ensures t / 3600 * 3600 + t / 60 % 60 * 60 + t % 60 == t
  {
  }

  lemma ClockJoins(hh: nat, mm: nat, ss: nat)
    requires hh < 24 && mm < 60 && ss < 60
    ensures var t := hh * 3600 + mm * 60 + ss;
            t < SECONDS_PER_DAY && t / 3600 == hh && t / 60 % 60 == mm && t % 60 == ss
  {
    var t := hh * 3600 + mm * 60 + ss;
    assert t / 60 == hh * 60 + mm;
  }

  lemma I64YearsHaveFourDigits(ns: int)
    requires FitsI64(ns)
    ensures 0 <= ns / NS_PER_SECOND / SECONDS_PER_DAY + UNIX_EPOCH_DAY < DaysBeforeYear(10000)
  {
  }

  /** Round trip across the two languages: parsing a printed instant gives the instant back. */
  lemma ParseUndoesFormat(ns: int)
    requires FitsI64(ns)
    ensures ParseTimestamp(FormatTs(ns)) == Some(ns)
  {
    hide ParseCivil, CivilSeconds, Number, NineDigits;
    var secs, frac := ns / NS_PER_SECOND, ns % NS_PER_SECOND;
    I64YearsHaveFourDigits(ns);
    CivilRoundTrip(secs);
    var c, f := CivilSeconds(secs), Padded(frac, 9);
    var s := FormatTs(ns);
    var local := s[..|s| - 1];
    assert local == c + "." + f;
    IndexOfFirst(local, '.', 0, |c|);
    assert local[..|c|] == c && local[|c| + 1..] == f;
    NineDigitNumber(frac);
  }

  /** Hence equal texts mean equal instants: comparing echoed timestamps as strings is exact. */
  lemma FormatIsInjective(a: int, b: int)
    requires FitsI64(a) && FitsI64(b) && FormatTs(a) == FormatTs(b)
    ensures a == b
  {
    ParseUndoesFormat(a);
    ParseUndoesFormat(b);
  }

  function ZoneSuffix(east: bool, hh: nat, mm: nat): string {
    (if east then "+" else "-") + TwoDigits(hh) + ":" + TwoDigits(mm)
  }

  function ZoneOffset(east: bool, hh: nat, mm: nat): int {
    if east then hh * 3600 + mm * 60 else -(hh * 3600 + mm * 60)
  }

  function Shifted(t: Option<int>, ns: int): Option<int> {
    match t case None => None case Some(n) => Some(n + ns)
  }

  lemma ZoneSuffixParses(east: bool, hh: nat, mm: nat)
    requires hh < 100 && mm < 100
    ensures ZoneSeconds(ZoneSuffix(east, hh, mm)) == Some(ZoneOffset(east, hh, mm))
  {
    hide Value, Number;
    var rest := ZoneSuffix(east, hh, mm)[1..];
    assert rest == TwoDigits(hh) + ":" + TwoDigits(mm);
    IndexOfFirst(rest, ':', 0, 2);
    assert rest[..2] == TwoDigits(hh) && rest[3..] == TwoDigits(mm);
    PaddedValue(hh, 2) by { assert Pow10(2) == 100; }
    PaddedValue(mm, 2) by { assert Pow10(2) == 100; }
    NumberOfDigits(TwoDigits(hh));
    NumberOfDigits(TwoDigits(mm));
  }

  /** A `+HH:MM` suffix denotes the same instant as the `Z` form shifted west by it, whatever
      precedes the suffix. */
  lemma ZoneSuffixShifts(body: string, east: bool, hh: nat, mm: nat)
    requires hh < 100 && mm < 100
    ensures ParseTimestamp(body + ZoneSuffix(east, hh, mm))
         == Shifted(ParseTimestamp(body + "Z"), -ZoneOffset(east, hh, mm) * NS_PER_SECOND)
  {
    hide ParseCivil, Number, NineDigits, IndexFrom, ZoneSeconds, TwoDigits;
    if |body| < 10 {
      hide ZoneSuffix, ZoneOffset, ParseTimestamp;
      ShortBodiesAreRejected(body, east, hh, mm);
    } else {
      var zone := ZoneSuffix(east, hh, mm);
      var s, z := body + zone, body + "Z";
      ZoneSuffixParses(east, hh, mm);
      ZoneSuffixIsRightmost(body, east, hh, mm);
      assert s[..|body|] == body && s[|body|..] == zone;
      assert z[..|z| - 1] == body;
    }
  }

  /** A civil second has its `T` not before index 8, and a digit after it. */
  lemma CivilHasT(s: string)
    requires ParseCivil(s).Some?
    ensures exists t :: 8 <= t < |s| - 1 && (s[t] == 'T' || s[t] == 't') && IsDigit(s[t + 1])
  {
    var (m, i) := ReadField(s, 5, 1, 12).value;
    var (d, j) := ReadDay(s, i + 1).value;
    hide Value, DayNumber;
    assert 8 <= j < |s| - 1 && (s[j] == 'T' || s[j] == 't') && IsDigit(s[j + 1]);
  }

  lemma ZoneSuffixShape(east: bool, hh: nat, mm: nat)
    requires hh < 100 && mm < 100
    ensures var zone := ZoneSuffix(east, hh, mm);
            |zone| == 6 && IsSign(zone[0]) && '.' !in zone && zone[5] != 'Z'
            && forall i :: 0 <= i < 6 ==> (i > 0 ==> !IsSign(zone[i])) && zone[i] != 'T' && zone[i] != 't'
  {
    TwoDigitsShape(hh);
    TwoDigitsShape(mm);
    hide TwoDigits;
  }

  /** What is too short to hold a date and time is rejected in either form. */
  lemma ShortBodiesAreRejected(body: string, east: bool, hh: nat, mm: nat)
    requires |body| < 10 && hh < 100 && mm < 100
    ensures ParseTimestamp(body + "Z") == None && ParseTimestamp(body + ZoneSuffix(east, hh, mm)) == None
  {
    hide ParseCivil, Number, NineDigits, ZoneSeconds, ZoneSuffix;
    var zone := ZoneSuffix(east, hh, mm);
    ZoneSuffixShape(east, hh, mm);
    assert (body + "Z")[..|body|] == body;
    ShortTextIsNotCivil(body, "");
    assert body + "" == body;
    var s := body + zone;
    assert s[|s| - 1] == zone[5];
    forall i | 10 <= i < |s| ensures !IsSign(s[i]) { assert s[i] == zone[i - |body|]; }
    NoZone(s, |s| - 1);
    ShortTextIsNotCivil(body, zone);
  }

  lemma {:induction false} NoZone(s: string, i: int)
    requires i < |s| && forall k :: 10 <= k < |s| ==> !IsSign(s[k])
    ensures ZoneStart(s, i) == None
    decreases i
  {
    if i > 0 && i > |s| - 7 {
      NoZone(s, i - 1);
    }
  }

  /** Neither a short text nor one followed by a zone is a civil second, with or without fraction. */
  lemma ShortTextIsNotCivil(body: string, zone: string)
    requires |body| < 10
    requires zone == "" ||
      (IsSign(zone[0]) && '.' !in zone && forall i :: 0 <= i < |zone| ==> zone[i] != 'T' && zone[i] != 't')
    ensures ParseLocal(body + zone, 0) == None
  {
    hide ParseCivil, Number, NineDigits;
    var s := body + zone;
    assert forall k :: |body| <= k < |s| ==> s[k] == zone[k - |body|];
    var dot := IndexFrom(s, '.', 0);
    var dateTime := if dot.Some? then s[..dot.value] else s;
    if ParseCivil(dateTime).Some? {
      CivilHasT(dateTime);
    }
  }

  lemma ZoneSuffixIsRightmost(body: string, east: bool, hh: nat, mm: nat)
    requires |body| >= 10 && hh < 100 && mm < 100
    ensures var s := body + ZoneSuffix(east, hh, mm);
            |s| == |body| + 6 && s[|s| - 1] != 'Z' && ZoneStart(s, |s| - 1) == Some(|body|)
  {
    var zone := ZoneSuffix(east, hh, mm);
    var s, n := body + zone, |body|;
    assert |zone| == 6;
    assert zone[1..3] == TwoDigits(hh) && zone[4..6] == TwoDigits(mm);
    assert s[n..] == zone;
    forall k | 1 <= k < 6 ensures !IsSign(zone[k]) && zone[k] != 'Z' {
      assert k == 1 || k == 2 ==> zone[k] == TwoDigits(hh)[k - 1];
      assert k == 4 || k == 5 ==> zone[k] == TwoDigits(mm)[k - 4];
    }
    assert s[n + 5] == zone[5] && s[n + 4] == zone[4] && s[n + 3] == zone[3];
    assert s[n + 2] == zone[2] && s[n + 1] == zone[1] && s[n] == zone[0];
    assert ZoneStart(s, n + 5) == ZoneStart(s, n + 4) == ZoneStart(s, n + 3);
    assert ZoneStart(s, n + 3) == ZoneStart(s, n + 2) == ZoneStart(s, n + 1) == ZoneStart(s, n);
  }

  /** Every instant can be written in any zone: print the shifted instant, replace `Z`. */
  lemma AnyZoneDenotesTheInstant(ns: int, east: bool, hh: nat, mm: nat)
    requires hh < 100 && mm < 100
    requires FitsI64(ns + ZoneOffset(east, hh, mm) * NS_PER_SECOND)
    ensures var local := FormatTs(ns + ZoneOffset(east, hh, mm) * NS_PER_SECOND);
            ParseTimestamp(local[..|local| - 1] + ZoneSuffix(east, hh, mm)) == Some(ns)
  {
    hide ParseTimestamp, CivilSeconds;
    var shifted := ns + ZoneOffset(east, hh, mm) * NS_PER_SECOND;
    var local := FormatTs(shifted);
    var body := local[..|local| - 1];
    I64YearsHaveFourDigits(shifted);
    CivilRoundTrip(shifted / NS_PER_SECOND);
    ParseUndoesFormat(shifted);
    ZoneSuffixShifts(body, east, hh, mm);
    assert body + "Z" == local;
  }

  /** Fractions of any length mean their nine-digit form, and no fraction means nine zeros. */
  lemma FractionsMeanNineDigits(dateTime: string, frac: string)
    requires '.' !in dateTime
    ensures ParseTimestamp(dateTime + "." + frac + "Z")
         == ParseTimestamp(dateTime + "." + NineDigits(frac) + "Z")
    ensures dateTime != "" ==>
            ParseTimestamp(dateTime + "Z") == ParseTimestamp(dateTime + "." + NineDigits("") + "Z")
  {
    hide *;
    var nine := NineDigits(frac);
    NineDigitsOfNine(frac);
    NineDigitsOfNine("");
    LocalWithFraction(dateTime, frac);
    LocalWithFraction(dateTime, nine);
    if dateTime != "" {
      LocalWithFraction(dateTime, NineDigits(""));
      LocalWithoutFraction(dateTime);
    }
    NineZeros();
  }

  lemma NineDigitsOfNine(frac: string)
    ensures NineDigits(frac) != "" && NineDigits(NineDigits(frac)) == NineDigits(frac)
    ensures frac == "" ==> NineDigits(frac) == NineDigits("")
  {
  }

  lemma LocalWithoutFraction(dateTime: string)
    requires '.' !in dateTime && dateTime != ""
    ensures ParseTimestamp(dateTime + "Z")
         == match ParseCivil(dateTime) case None => None case Some(secs) => Some(secs * NS_PER_SECOND)
  {
    hide ParseCivil;
    NoIndex(dateTime, '.');
    assert (dateTime + "Z")[..|dateTime|] == dateTime;
  }

  lemma {:induction false} PaddedZero(w: nat)
    ensures Padded(0, w) == Zeros(w)
  {
    if w > 0 {
      PaddedZero(w - 1);
    }
  }

  lemma NineZeros()
    ensures Number(NineDigits("")) == Some(0)
  {
    hide Value, Padded;
    PaddedZero(9);
    assert NineDigits("") == Padded(0, 9);
    NineDigitNumber(0);
  }

  lemma LocalWithFraction(dateTime: string, frac: string)
    requires '.' !in dateTime
    ensures ParseTimestamp(dateTime + "." + frac + "Z")
         == match ParseCivil(dateTime)
            case None => None
            case Some(secs) =>
              match if frac == "" then Some(0) else Number(NineDigits(frac))
              case None => None
              case Some(nanos) => Some(secs * NS_PER_SECOND + nanos)
  {
    hide ParseCivil, Number, NineDigits;
    var s := dateTime + "." + frac + "Z";
    var local := s[..|s| - 1];
    assert local == dateTime + "." + frac;
    IndexOfFirst(local, '.', 0, |dateTime|);
    assert local[..|dateTime|] == dateTime && local[|dateTime| + 1..] == frac;
  }

  lemma DaySplits(q: int, r: nat)
    requires r < SECONDS_PER_DAY
    ensures (q * SECONDS_PER_DAY + r) / SECONDS_PER_DAY == q && (q * SECONDS_PER_DAY + r) % SECONDS_PER_DAY == r
  {
  }

  lemma SecondSplits(q: int, r: nat)
    requires r < NS_PER_SECOND
    ensures (q * NS_PER_SECOND + r) / NS_PER_SECOND == q && (q * NS_PER_SECOND + r) % NS_PER_SECOND == r
  {
  }

  lemma SecondsAtSplits(d: Date, hh: nat, mm: nat, ss: nat)
    requires ValidDate(d) && hh < 24 && mm < 60 && ss < 60
    ensures var clock := hh * 3600 + mm * 60 + ss;
            && SecondsAt(d, hh, mm, ss) / SECONDS_PER_DAY + UNIX_EPOCH_DAY == DayNumber(d)
            && SecondsAt(d, hh, mm, ss) % SECONDS_PER_DAY == clock
  {
    hide DayNumber, UNIX_EPOCH_DAY;
    DaySplits(DayNumber(d) - UNIX_EPOCH_DAY, hh * 3600 + mm * 60 + ss);
  }

  lemma CivilSecondsOfFields(d: Date, hh: nat, mm: nat, ss: nat)
    requires ValidDate(d) && hh < 24 && mm < 60 && ss < 60
    ensures SecondsAt(d, hh, mm, ss) / SECONDS_PER_DAY + UNIX_EPOCH_DAY >= 0
    ensures CivilSeconds(SecondsAt(d, hh, mm, ss)) == CivilText(d, hh, mm, ss)
  {
    hide *;
    SecondsAtSplits(d, hh, mm, ss);
    DayNumberIsInjective(DateOf(DayNumber(d)), d);
    ClockJoins(hh, mm, ss);
    CivilSecondsFromParts(SecondsAt(d, hh, mm, ss), DayNumber(d), hh * 3600 + mm * 60 + ss);
  }

  lemma FormatFromParts(ns: int, secs: int, nanos: nat)
    requires FitsI64(ns) && ns / NS_PER_SECOND == secs && ns % NS_PER_SECOND == nanos
    requires secs / SECONDS_PER_DAY + UNIX_EPOCH_DAY >= 0
    ensures FormatTs(ns) == CivilSeconds(secs) + "." + Padded(nanos, 9) + "Z"
  {
    hide CivilSeconds;
  }

  /** Conversely, printing a parsed canonical text gives that text back: the printer and the
      parser are inverse on the canonical form. */
  lemma FormatUndoesParse(d: Date, hh: nat, mm: nat, ss: nat, nanos: nat)
    requires ValidDate(d) && d.year < 10000 && hh < 24 && mm < 60 && ss < 60 && nanos < NS_PER_SECOND
    ensures var text := CivilText(d, hh, mm, ss) + "." + Padded(nanos, 9) + "Z";
            var t := ParseTimestamp(text);
            && t.Some?
            && (FitsI64(t.value) ==> FormatTs(t.value) == text)
  {
    hide *;
    var c, f := CivilText(d, hh, mm, ss), Padded(nanos, 9);
    var secs := SecondsAt(d, hh, mm, ss);
    var ns := secs * NS_PER_SECOND + nanos;
    CivilTextParses(d, hh, mm, ss);
    CivilSecondsOfFields(d, hh, mm, ss);
    NineDigitNumber(nanos);
    LocalWithFraction(c, f);
    SecondSplits(secs, nanos);
    if FitsI64(ns) {
      FormatFromParts(ns, secs, nanos);
    }
  }

  lemma NineDigitNumber(nanos: nat)
    requires nanos < NS_PER_SECOND
    ensures Padded(nanos, 9) != "" && NineDigits(Padded(nanos, 9)) == Padded(nanos, 9)
    ensures Number(Padded(nanos, 9)) == Some(nanos)
  {
    PaddedValue(nanos, 9) by { assert Pow10(9) == NS_PER_SECOND; }
    NumberOfDigits(Padded(nanos, 9));
  }

  // ----- what the texts denote -----

  lemma UtcTextParses(d: Date, hh: nat, mm: nat, ss: nat)
    requires ValidDate(d) && d.year < 10000 && hh < 24 && mm < 60 && ss < 60
    ensures ParseTimestamp(CivilText(d, hh, mm, ss) + "Z") == Some(SecondsAt(d, hh, mm, ss) * NS_PER_SECOND)
  {
    hide *;
    CivilTextParses(d, hh, mm, ss);
    CivilTextIsNotEmpty(d, hh, mm, ss);
    LocalWithoutFraction(CivilText(d, hh, mm, ss));
  }

  lemma CivilTextIsNotEmpty(d: Date, hh: nat, mm: nat, ss: nat)
    ensures CivilText(d, hh, mm, ss) != ""
  {
    hide Padded;
  }

  /** A day later is 86400 s later, an hour later 3600 s, a minute 60 s, a second 1 s. */
  lemma ClockAdvances(d: Date, hh: nat, mm: nat, ss: nat)
    requires ValidDate(d) && NextDate(d).year < 10000 && hh < 24 && mm < 60 && ss < 60
    ensures var t := ParseTimestamp(CivilText(d, hh, mm, ss) + "Z");
      && t.Some?
      && ParseTimestamp(CivilText(NextDate(d), hh, mm, ss) + "Z") == Some(t.value + 86_400_000_000_000)
      && (hh < 23 ==> ParseTimestamp(CivilText(d, hh + 1, mm, ss) + "Z") == Some(t.value + 3_600_000_000_000))
      && (mm < 59 ==> ParseTimestamp(CivilText(d, hh, mm + 1, ss) + "Z") == Some(t.value + 60_000_000_000))
      && (ss < 59 ==> ParseTimestamp(CivilText(d, hh, mm, ss + 1) + "Z") == Some(t.value + 1_000_000_000))
  {
    hide DayNumber, NextDate, DaysInMonth, ParseTimestamp, CivilText, UNIX_EPOCH_DAY;
    DaysAreCounted(d);
    YearsGrow(d);
    UtcTextParses(d, hh, mm, ss);
    UtcTextParses(NextDate(d), hh, mm, ss);
    if hh < 23 { UtcTextParses(d, hh + 1, mm, ss); }
    if mm < 59 { UtcTextParses(d, hh, mm + 1, ss); }
    if ss < 59 { UtcTextParses(d, hh, mm, ss + 1); }
  }

  lemma YearsGrow(d: Date)
    requires ValidDate(d)
    ensures d.year <= NextDate(d).year
  {
  }

  lemma TwoDigitTexts()
    ensures TwoDigits(0) == "00" && TwoDigits(1) == "01" && TwoDigits(29) == "29" && TwoDigits(2) == "02"
    ensures TwoDigits(23) == "23" && TwoDigits(59) == "59"
    ensures Padded(1970, 4) == "1970" && Padded(2000, 4) == "2000"
  {
    TwoDigitsShape(0);
    TwoDigitsShape(1);
    TwoDigitsShape(2);
    TwoDigitsShape(23);
    TwoDigitsShape(29);
    TwoDigitsShape(59);
    assert Padded(19, 2) == TwoDigits(19);
    TwoDigitsShape(19);
    TwoDigitsShape(20);
    TwoDigitsShape(70);
    assert Padded(197, 3) == Padded(19, 2) + [Digit(7)];
    assert Padded(1970, 4) == Padded(197, 3) + [Digit(0)];
    assert Padded(20, 2) == TwoDigits(20);
    assert Padded(200, 3) == Padded(20, 2) + [Digit(0)];
    assert Padded(2000, 4) == Padded(200, 3) + [Digit(0)];
  }

  /** Texts one knows the instant of. */
  lemma KnownInstants()
    ensures ParseTimestamp("1970-01-01T00:00:00Z") == Some(0)
    ensures ParseTimestamp("1970-01-01T01:00:00+01:00") == Some(0)
    ensures ParseTimestamp("2000-02-29T23:59:59Z") == Some(951_868_799_000_000_000)
  {
    hide ParseTimestamp, Padded, TwoDigits, DayNumber;
    TwoDigitTexts();
    UnixEpoch();
    UtcTextParses(Date(1970, 1, 1), 0, 0, 0);
    UtcTextParses(Date(1970, 1, 1), 1, 0, 0);
    UtcTextParses(Date(2000, 2, 29), 23, 59, 59);
    assert CivilText(Date(1970, 1, 1), 0, 0, 0) == "1970-01-01T00:00:00";
    assert CivilText(Date(1970, 1, 1), 1, 0, 0) == "1970-01-01T01:00:00";
    assert CivilText(Date(2000, 2, 29), 23, 59, 59) == "2000-02-29T23:59:59";
    ZoneSuffixShifts("1970-01-01T01:00:00", true, 1, 0);
    assert ZoneSuffix(true, 1, 0) == "+01:00";
    assert "1970-01-01T00:00:00" + "Z" == "1970-01-01T00:00:00Z";
    assert "1970-01-01T01:00:00" + "+01:00" == "1970-01-01T01:00:00+01:00";
    assert "2000-02-29T23:59:59" + "Z" == "2000-02-29T23:59:59Z";
  }

  lemma ZeroShifts(s: string)
    requires AllDigits(s)
    ensures AllDigits(s + "0") && Value(s + "0") == 10 * Value(s)
  {
    assert (s + "0")[..|s|] == s;
  }

  lemma {:induction false} ZerosScale(digits: string, k: nat)
    requires AllDigits(digits)
    ensures AllDigits(digits + Zeros(k)) && Value(digits + Zeros(k)) == Value(digits) * Pow10(k)
  {
    hide Value, AllDigits;
    if k == 0 {
      assert digits + Zeros(0) == digits;
    } else {
      ZerosScale(digits, k - 1);
      ZeroShifts(digits + Zeros(k - 1));
      assert digits + Zeros(k - 1) + "0" == digits + Zeros(k);
      TenTimes(Value(digits), Pow10(k - 1));
    }
  }

  lemma TenTimes(a: nat, b: nat)
    ensures 10 * (a * b) == a * (10 * b)
  {
  }

  /** A fraction of up to nine digits counts in units of its last digit; further digits are cut. */
  lemma FractionCounts(dateTime: string, frac: string)
    requires '.' !in dateTime && AllDigits(frac) && frac != "" && ParseCivil(dateTime).Some?
    ensures ParseTimestamp(dateTime + "." + frac + "Z") ==
      Some(ParseCivil(dateTime).value * NS_PER_SECOND +
           (if |frac| <= 9 then Value(frac) * Pow10(9 - |frac|) else Value(frac[..9])))
  {
    hide ParseCivil, ParseTimestamp, Number;
    LocalWithFraction(dateTime, frac);
    if |frac| < 9 { ZerosScale(frac, 9 - |frac|); }
    if |frac| == 9 { assert frac[..9] == frac; }
    NumberOfDigits(NineDigits(frac));
  }
}
