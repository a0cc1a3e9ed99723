/**
 * `formatDuration` and `pluralize` of the deadline manager: a Go `time.Duration`,
 * held as integer nanoseconds, written as "N day(s), N hour(s), N minute(s)".
 * `ReadDuration` reads that text back; the round trip is the formatter's partner.
 */
module Durations {
  import opened Results
  import opened Text

  const Second: int := 1_000_000_000
  const Minute: int := 60 * Second
  const Hour: int := 60 * Minute
  const MinutesInHour: int := 60
  const HoursInDay: int := 24
  const MinutesInDay: int := MinutesInHour * HoursInDay

  /** `d.Round(time.Minute)` of a positive duration: the nearest whole minute, halves rounded up. */
  function RoundToMinute(d: int): (r: int)
    requires d > 0
    ensures r % Minute == 0
    ensures d - Minute / 2 < r <= d + Minute / 2
  {
    var rem := d % Minute;
    if rem + rem < Minute then d - rem else d + Minute - rem
  }

  /** `int(d.Round(time.Minute).Minutes())`. */
  function RoundedMinutes(d: int): (m: nat)
    requires d > 0
  {
    RoundToMinute(d) / Minute
  }

  /** The number of whole minutes nearest to `d`, halves up, in closed form. */
  lemma {:induction false} RoundedMinutesClosedForm(d: int)
    requires d > 0
    ensures RoundedMinutes(d) == (d + 30 * Second) / Minute
  {
  }

  /** `pluralize`: no suffix exactly for a count of one. */
  function Pluralize(count: int): (r: string)
    ensures r == "" <==> count == 1
    ensures r != "" ==> r == "s"
  {
    if count == 1 then "" else "s"
  }

  /** `fmt.Sprintf("%d <unit>%s", n, pluralize(n))`. */
  function Part(n: nat, unit: string): string {
    NatToString(n) + " " + unit + Pluralize(n)
  }

  /** The `parts` slice `formatDuration` builds for a whole number of minutes, as written. */
  function Parts(totalMinutes: nat): seq<string> {
    var days := totalMinutes / MinutesInDay;
    var remainingMinutes := totalMinutes % MinutesInDay;
    var hours := remainingMinutes / MinutesInHour;
    var minutes := remainingMinutes % MinutesInHour;
    var withDays := if days > 0 then [Part(days, "day")] else [];
    var withHours := withDays + if hours > 0 then [Part(hours, "hour")] else [];
    if minutes > 0 || (days == 0 && hours == 0 && totalMinutes > 0) then
      var minutes' := if minutes == 0 && totalMinutes > 0 then 1 else minutes;
      withHours + if minutes' > 0 then [Part(minutes', "minute")] else []
    else withHours
  }

  /** `formatDuration`. */
  function FormatDuration(d: int): string {
    if d <= 0 then "now"
    else
      var totalMinutes := RoundedMinutes(d);
      var parts := Parts(totalMinutes);
      if |parts| == 0 && totalMinutes > 0 then "less than a minute"
      else Join(parts, ", ")
  }

  // ----- the reader -----

  datatype Unit = DayUnit | HourUnit | MinuteUnit

  function UnitName(u: Unit): string {
    match u
    case DayUnit => "day"
    case HourUnit => "hour"
    case MinuteUnit => "minute"
  }

  /** How many minutes an entry stands for. */
  function Minutes(e: Entry): nat {
    match e.unit
    case DayUnit => e.count * 1440
    case HourUnit => e.count * 60
    case MinuteUnit => e.count
  }

  /** Days come before hours, hours before minutes. */
  function Rank(u: Unit): nat {
    match u
    case DayUnit => 0
    case HourUnit => 1
    case MinuteUnit => 2
  }

  /** One "N unit" part with its count. */
  datatype Entry = Entry(count: nat, unit: Unit)

  function Render(es: seq<Entry>): (r: seq<string>)
    ensures |r| == |es|
  {
    if es == [] then [] else [Part(es[0].count, UnitName(es[0].unit))] + Render(es[1..])
  }

  function Total(es: seq<Entry>): nat {
    if es == [] then 0 else Minutes(es[0]) + Total(es[1..])
  }

  /** The entries have positive counts and strictly increasing units, none before `rank`. */
  predicate Ascending(es: seq<Entry>, rank: nat)
    decreases |es|
  {
    es == [] || (es[0].count > 0 && rank <= Rank(es[0].unit) && Ascending(es[1..], Rank(es[0].unit) + 1))
  }

  /** The unit word `w` starts with, if any, compared character by character. */
  function UnitAt(w: string): (r: Option<Unit>)
    ensures r.Some? ==> |UnitName(r.value)| <= |w|
  {
    if |w| >= 3 && w[0] == 'd' && w[1] == 'a' && w[2] == 'y' then Some(DayUnit)
    else if |w| >= 4 && w[0] == 'h' && w[1] == 'o' && w[2] == 'u' && w[3] == 'r' then Some(HourUnit)
    else if |w| >= 6 && w[0] == 'm' && w[1] == 'i' && w[2] == 'n' && w[3] == 'u' && w[4] == 't' && w[5] == 'e'
    then Some(MinuteUnit)
    else None
  }

  lemma {:induction false} UnitAtName(u: Unit, rest: string)
    ensures UnitAt(UnitName(u) + rest) == Some(u)
  {
  }

  /** Reads a unit word, with an "s" exactly when `n` is not one: the unit and how many characters. */
  function ReadUnit(w: string, n: nat): (r: Option<(Unit, nat)>)
    ensures r.Some? ==> r.value.1 <= |w|
  {
    match UnitAt(w)
    case None => None
    case Some(u) =>
      var e := |UnitName(u)|;
      if n == 1 then Some((u, e))
      else if e < |w| && w[e] == 's' then Some((u, e + 1))
      else None
  }

  /** Reads "N unit" or "N units" from the front of `s`: the entry and how many characters. */
  function ReadPart(s: string): (r: (Option<Entry>, nat))
    ensures r.1 <= |s|
    ensures r.0.Some? ==> r.1 > 0
  {
    var k := DigitRun(s);
    if k == 0 || k == |s| || s[k] != ' ' then (None, 0)
    else
      var n := DigitsValue(s[..k]);
      match ReadUnit(s[k + 1..], n)
      case None => (None, 0)
      case Some((u, len)) => (Some(Entry(n, u)), k + 1 + len)
  }

  /**
   * Reads parts separated by ", ", each with a positive count and a later unit than the
   * one before (none before `rank`), and adds them up in minutes.
   */
  function ReadParts(s: string, rank: nat): Option<nat>
    decreases |s|, 1
  {
    ReadPartsFrom(s, rank, ReadPart(s))
  }

  /** `ReadParts` once the first part has been read as `first`. */
  function ReadPartsFrom(s: string, rank: nat, first: (Option<Entry>, nat)): Option<nat>
    requires first.1 <= |s| && (first.0.Some? ==> first.1 > 0)
    decreases |s|, 0
  {
    match first.0
    case None => None
    case Some(e) =>
      if e.count == 0 || Rank(e.unit) < rank then None
      else
        var here := Minutes(e);
        if first.1 == |s| then Some(here)
        else if first.1 + 2 <= |s| && s[first.1] == ',' && s[first.1 + 1] == ' ' then
          Plus(here, ReadParts(s[first.1 + 2..], Rank(e.unit) + 1))
        else None
  }

  /** Adds `n` to a number that may be missing. */
  function Plus(n: nat, m: Option<nat>): Option<nat> {
    if m.Some? then Some(n + m.value) else None
  }

  /** The number of minutes a `formatDuration` text stands for ("now" and "" stand for none). */
  function ReadDuration(s: string): Option<nat> {
    if s == "now" || s == "" then Some(0) else ReadParts(s, 0)
  }

  // ----- properties -----

  lemma {:induction false} ReadUnitOfName(u: Unit, n: nat, tail: string)
    ensures ReadUnit(UnitName(u) + Pluralize(n) + tail, n) == Some((u, |UnitName(u)| + |Pluralize(n)|))
  {
    var w := UnitName(u) + (Pluralize(n) + tail);
    assert UnitName(u) + Pluralize(n) + tail == w;
    UnitAtName(u, Pluralize(n) + tail);
    assert w[|UnitName(u)|..] == Pluralize(n) + tail;
  }

  lemma {:induction false} Regroup(a: string, b: string, c: string, d: string, e: string)
    ensures a + b + c + d + e == a + (b + (c + d + e))
  {
  }

  lemma {:induction false} ReadPartFound(s: string, k: nat, u: Unit, len: nat)
    requires 0 < k < |s| && DigitRun(s) == k && s[k] == ' '
    requires ReadUnit(s[k + 1..], DigitsValue(s[..k])) == Some((u, len))
    ensures ReadPart(s) == (Some(Entry(DigitsValue(s[..k]), u)), k + 1 + len)
  {
  }

  /** A digit string, a space and more text: where the count ends and the unit starts. */
  lemma {:induction false} CountThenSpace(digits: string, rest: string)
    requires AllDigits(digits)
    ensures var s := digits + ([' '] + rest);
      DigitRun(s) == |digits| && s[|digits|] == ' ' && s[..|digits|] == digits && s[|digits| + 1..] == rest
  {
    DigitRunOfDigits(digits, [' '] + rest);
  }

  /** A count written in digits, a space, a unit word and its suffix, then a separator or nothing. */
  lemma {:induction false} ReadPartOfText(s: string, digits: string, n: nat, u: Unit, tail: string)
    requires digits != [] && AllDigits(digits) && DigitsValue(digits) == n
    requires tail == [] || tail[0] == ','
    requires s == digits + ([' '] + (UnitName(u) + Pluralize(n) + tail))
    ensures ReadPart(s) == (Some(Entry(n, u)), |digits| + 1 + |UnitName(u)| + |Pluralize(n)|)
  {
    var rest := UnitName(u) + Pluralize(n) + tail;
    var k := |digits|;
    CountThenSpace(digits, rest);
    assert DigitsValue(s[..k]) == n;
    ReadUnitOfName(u, n, tail);
    assert ReadUnit(s[k + 1..], DigitsValue(s[..k])) == Some((u, |UnitName(u)| + |Pluralize(n)|));
    ReadPartFound(s, k, u, |UnitName(u)| + |Pluralize(n)|);
  }

  /** A rendered part reads back as its entry, when a separator or nothing follows it. */
  lemma {:induction false} ReadPartOfPart(e: Entry, tail: string, s: string)
    requires tail == [] || tail[0] == ','
    requires s == Part(e.count, UnitName(e.unit)) + tail
    ensures ReadPart(s) == (Some(e), |Part(e.count, UnitName(e.unit))|)
  {
    var digits := NatToString(e.count);
    NatToStringRoundTrip(e.count);
    Regroup(digits, " ", UnitName(e.unit), Pluralize(e.count), tail);
    ReadPartOfText(s, digits, e.count, e.unit, tail);
  }

  /** `ReadParts` on a last part. */
  lemma {:induction false} ReadPartsLast(s: string, rank: nat, e: Entry)
    requires |s| > 0 && e.count > 0 && rank <= Rank(e.unit)
    ensures ReadPartsFrom(s, rank, (Some(e), |s|)) == Some(Minutes(e))
  {
  }

  /** `ReadParts` on a part followed by ", " and more parts. */
  lemma {:induction false} ReadPartsNext(s: string, rank: nat, e: Entry, len: nat)
    requires 0 < len && len + 2 <= |s| && s[len] == ',' && s[len + 1] == ' '
    requires e.count > 0 && rank <= Rank(e.unit)
    ensures ReadPartsFrom(s, rank, (Some(e), len)) == Plus(Minutes(e), ReadParts(s[len + 2..], Rank(e.unit) + 1))
  {
  }

  lemma {:induction false} ReadPartsStart(s: string, rank: nat, e: Entry, len: nat)
    requires ReadPart(s) == (Some(e), len)
    ensures ReadParts(s, rank) == ReadPartsFrom(s, rank, (Some(e), len))
  {
  }

  lemma {:induction false} PlusSome(n: nat, o: Option<nat>, m: nat, total: nat)
    requires o == Some(m) && total == n + m
    ensures Plus(n, o) == Some(total)
  {
  }

  lemma {:induction false} ReadPartsChain(s: string, rank: nat, e: Entry, len: nat, m: nat, total: nat)
    requires ReadPart(s) == (Some(e), len) && e.count > 0 && rank <= Rank(e.unit)
    requires 0 < len && len + 2 <= |s| && s[len] == ',' && s[len + 1] == ' '
    requires ReadParts(s[len + 2..], Rank(e.unit) + 1) == Some(m)
    requires total == Minutes(e) + m
    ensures ReadParts(s, rank) == Some(total)
  {
    ReadPartsStart(s, rank, e, len);
    ReadPartsNext(s, rank, e, len);
    PlusSome(Minutes(e), ReadParts(s[len + 2..], Rank(e.unit) + 1), m, total);
  }

  lemma {:induction false} ReadPartsSingle(s: string, rank: nat, e: Entry)
    requires ReadPart(s) == (Some(e), |s|) && |s| > 0 && e.count > 0 && rank <= Rank(e.unit)
    ensures ReadParts(s, rank) == Some(Minutes(e))
  {
    ReadPartsStart(s, rank, e, |s|);
    ReadPartsLast(s, rank, e);
  }

  lemma {:induction false} JoinRenderCons(es: seq<Entry>)
    requires |es| > 1
    ensures Join(Render(es), ", ")
      == Part(es[0].count, UnitName(es[0].unit)) + (", " + Join(Render(es[1..]), ", "))
  {
    var p := Part(es[0].count, UnitName(es[0].unit));
    assert Render(es) == [p] + Render(es[1..]);
    JoinCons(p, Render(es[1..]), ", ");
  }

  /** A part, ", " and a text that reads as `m` minutes of later units. */
  lemma {:induction false} ReadPartsCons(e: Entry, rest: string, rank: nat, m: nat, s: string, total: nat)
    requires e.count > 0 && rank <= Rank(e.unit)
    requires ReadParts(rest, Rank(e.unit) + 1) == Some(m)
    requires s == Part(e.count, UnitName(e.unit)) + (", " + rest)
    requires total == Minutes(e) + m
    ensures ReadParts(s, rank) == Some(total)
  {
    var p := Part(e.count, UnitName(e.unit));
    ReadPartOfPart(e, ", " + rest, s);
    assert s[|p| + 2..] == rest;
    ReadPartsChain(s, rank, e, |p|, m, total);
  }

  lemma {:induction false} TotalCons(es: seq<Entry>)
    requires es != []
    ensures Total(es) == Minutes(es[0]) + Total(es[1..])
  {
  }

  /** The rendered entries joined by ", ", written out part by part. */
  function JoinedParts(es: seq<Entry>): (r: string)
    requires es != []
    decreases |es|
  {
    var p := Part(es[0].count, UnitName(es[0].unit));
    if |es| == 1 then p else p + (", " + JoinedParts(es[1..]))
  }

  lemma {:induction false} JoinedPartsIsJoin(es: seq<Entry>)
    requires es != []
    ensures JoinedParts(es) == Join(Render(es), ", ")
    decreases |es|
  {
    if |es| == 1 {
      assert Render(es) == [Part(es[0].count, UnitName(es[0].unit))];
    } else {
      JoinRenderCons(es);
      JoinedPartsIsJoin(es[1..]);
    }
  }

  lemma {:induction false} ReadPartsOfJoinedOne(es: seq<Entry>, rank: nat)
    requires |es| == 1 && Ascending(es, rank)
    ensures ReadParts(JoinedParts(es), rank) == Some(Total(es))
  {
    var p := Part(es[0].count, UnitName(es[0].unit));
    assert p + [] == p;
    ReadPartOfPart(es[0], [], p);
    ReadPartsSingle(p, rank, es[0]);
    TotalCons(es);
    assert Total(es[1..]) == 0;
  }

  lemma {:induction false} ReadPartsOfJoinedCons(es: seq<Entry>, rank: nat)
    requires |es| > 1 && Ascending(es, rank)
    requires ReadParts(JoinedParts(es[1..]), Rank(es[0].unit) + 1) == Some(Total(es[1..]))
    ensures ReadParts(JoinedParts(es), rank) == Some(Total(es))
  {
    TotalCons(es);
    ReadPartsCons(es[0], JoinedParts(es[1..]), rank, Total(es[1..]), JoinedParts(es), Total(es));
  }

  /** Reading the joined rendering of ascending entries gives their total. */
  lemma {:induction false} ReadPartsOfJoined(es: seq<Entry>, rank: nat)
    requires es != [] && Ascending(es, rank)
    ensures ReadParts(JoinedParts(es), rank) == Some(Total(es))
    decreases |es|
  {
    if |es| == 1 {
      ReadPartsOfJoinedOne(es, rank);
    } else {
      ReadPartsOfJoined(es[1..], Rank(es[0].unit) + 1);
      ReadPartsOfJoinedCons(es, rank);
    }
  }

  lemma {:induction false} ReadPartsOfJoin(es: seq<Entry>, rank: nat)
    requires es != [] && Ascending(es, rank)
    ensures ReadParts(Join(Render(es), ", "), rank) == Some(Total(es))
  {
    JoinedPartsIsJoin(es);
    ReadPartsOfJoined(es, rank);
  }

  /** The non-zero days, hours and minutes, in that order. */
  function EntriesOf(days: nat, hours: nat, minutes: nat): seq<Entry> {
    (if days > 0 then [Entry(days, DayUnit)] else [])
    + (if hours > 0 then [Entry(hours, HourUnit)] else [])
    + (if minutes > 0 then [Entry(minutes, MinuteUnit)] else [])
  }

  /** The parts for a whole number of minutes, as entries. */
  function Entries(totalMinutes: nat): seq<Entry> {
    EntriesOf(totalMinutes / MinutesInDay, totalMinutes % MinutesInDay / MinutesInHour,
              totalMinutes % MinutesInDay % MinutesInHour)
  }

  lemma {:induction false} RenderAppend(a: seq<Entry>, b: seq<Entry>)
    ensures Render(a + b) == Render(a) + Render(b)
    ensures Total(a + b) == Total(a) + Total(b)
  {
    if a != [] {
      assert (a + b)[1..] == a[1..] + b;
      RenderAppend(a[1..], b);
    } else {
      assert a + b == b;
    }
  }

  /** Days, the hours left over and the minutes left over add back up to the total. */
  lemma {:induction false} SplitMinutes(totalMinutes: nat)
    ensures var days, rest := totalMinutes / MinutesInDay, totalMinutes % MinutesInDay;
      totalMinutes == days * 1440 + rest / MinutesInHour * 60 + rest % MinutesInHour
      && rest / MinutesInHour < HoursInDay
  {
  }

  lemma {:induction false} EntriesOfRender(days: nat, hours: nat, minutes: nat)
    ensures Render(EntriesOf(days, hours, minutes))
      == (if days > 0 then [Part(days, "day")] else [])
       + (if hours > 0 then [Part(hours, "hour")] else [])
       + (if minutes > 0 then [Part(minutes, "minute")] else [])
    ensures Total(EntriesOf(days, hours, minutes)) == days * 1440 + hours * 60 + minutes
  {
    var d := if days > 0 then [Entry(days, DayUnit)] else [];
    var h := if hours > 0 then [Entry(hours, HourUnit)] else [];
    var m := if minutes > 0 then [Entry(minutes, MinuteUnit)] else [];
    RenderAppend(d, h);
    RenderAppend(d + h, m);
    assert Render([Entry(days, DayUnit)]) == [Part(days, "day")];
    assert Render([Entry(hours, HourUnit)]) == [Part(hours, "hour")];
    assert Render([Entry(minutes, MinuteUnit)]) == [Part(minutes, "minute")];
  }

  lemma {:induction false} AscendingCons(e: Entry, es: seq<Entry>, rank: nat)
    requires e.count > 0 && rank <= Rank(e.unit) && Ascending(es, Rank(e.unit) + 1)
    ensures Ascending([e] + es, rank)
  {
    assert ([e] + es)[1..] == es;
  }

  lemma {:induction false} AscendingWeaken(es: seq<Entry>, rank: nat, lower: nat)
    requires lower <= rank && Ascending(es, rank)
    ensures Ascending(es, lower)
  {
  }

  lemma {:induction false} EntriesOfAscending(days: nat, hours: nat, minutes: nat)
    ensures Ascending(EntriesOf(days, hours, minutes), 0)
    ensures EntriesOf(days, hours, minutes) == [] <==> days == 0 && hours == 0 && minutes == 0
  {
    var d := if days > 0 then [Entry(days, DayUnit)] else [];
    var h := if hours > 0 then [Entry(hours, HourUnit)] else [];
    var m := if minutes > 0 then [Entry(minutes, MinuteUnit)] else [];
    if minutes > 0 {
      AscendingCons(Entry(minutes, MinuteUnit), [], 2);
      assert [Entry(minutes, MinuteUnit)] + [] == m;
    }
    assert Ascending(m, 2);
    if hours > 0 {
      AscendingCons(Entry(hours, HourUnit), m, 1);
      assert h + m == [Entry(hours, HourUnit)] + m;
    } else {
      AscendingWeaken(m, 2, 1);
      assert h + m == m;
    }
    assert Ascending(h + m, 1);
    if days > 0 {
      AscendingCons(Entry(days, DayUnit), h + m, 0);
      assert d + h + m == [Entry(days, DayUnit)] + (h + m);
    } else {
      AscendingWeaken(h + m, 1, 0);
      assert d + h + m == h + m;
    }
  }

  /**
   * The `minutes = 1` fix-up never fires: `Parts` lists exactly the non-zero days, hours
   * and minutes, in that order, and they add up to the total.
   */
  lemma {:induction false} PartsAreEntries(totalMinutes: nat)
    ensures Parts(totalMinutes) == Render(Entries(totalMinutes))
    ensures Total(Entries(totalMinutes)) == totalMinutes
    ensures Ascending(Entries(totalMinutes), 0)
    ensures totalMinutes > 0 <==> Entries(totalMinutes) != []
  {
    var days := totalMinutes / MinutesInDay;
    var rest := totalMinutes % MinutesInDay;
    SplitMinutes(totalMinutes);
    EntriesOfRender(days, rest / MinutesInHour, rest % MinutesInHour);
    EntriesOfAscending(days, rest / MinutesInHour, rest % MinutesInHour);
  }

  /** A positive number of rounded minutes is written starting with a digit. */
  lemma {:induction false} FormatDurationStartsWithDigit(d: int)
    requires d > 0 && RoundedMinutes(d) > 0
    ensures var s := FormatDuration(d); s != [] && IsDigit(s[0])
  {
    var tm := RoundedMinutes(d);
    PartsAreEntries(tm);
    var es := Entries(tm);
    var p := Part(es[0].count, UnitName(es[0].unit));
    assert Render(es) == [p] + Render(es[1..]);
    if |es| > 1 {
      JoinCons(p, Render(es[1..]), ", ");
    }
    assert FormatDuration(d)[0] == NatToString(es[0].count)[0];
  }

  /** Non-positive durations, and only they, read "now". */
  lemma {:induction false} FormatDurationNow(d: int)
    ensures FormatDuration(d) == "now" <==> d <= 0
  {
    if d > 0 && RoundedMinutes(d) > 0 {
      FormatDurationStartsWithDigit(d);
    }
  }

  /** Less than half a minute formats as the empty text; "less than a minute" is never returned. */
  lemma {:induction false} FormatDurationShort(d: int)
    ensures 0 < d < 30 * Second ==> FormatDuration(d) == ""
    ensures FormatDuration(d) != "less than a minute"
  {
    if d > 0 {
      RoundedMinutesClosedForm(d);
      if RoundedMinutes(d) > 0 {
        FormatDurationStartsWithDigit(d);
      }
    }
  }

  /** Reading the formatted text back gives the rounded number of minutes. */
  lemma {:induction false} ReadFormatDuration(d: int)
    ensures ReadDuration(FormatDuration(d)) == Some(if d <= 0 then 0 else RoundedMinutes(d))
  {
    if d > 0 {
      var tm := RoundedMinutes(d);
      PartsAreEntries(tm);
      FormatDurationNow(d);
      if tm > 0 {
        ReadPartsOfJoin(Entries(tm), 0);
      }
    }
  }

  /** One to fifty-nine whole minutes read "N minute" or "N minutes". */
  lemma {:induction false} FormatWholeMinutes(n: nat)
    requires 1 <= n < 60
    ensures FormatDuration(n * Minute) == Part(n, "minute")
  {
    RoundedMinutesClosedForm(n * Minute);
    assert RoundedMinutes(n * Minute) == n;
    EntriesOfRender(0, 0, n);
    assert Parts(n) == [Part(n, "minute")];
  }
}
