/**
 * Calendar readings of a UTC clock, the two fixed-width text layouts the stores write
 * (`2006-01-02 15:04` for the `datetime` column and the clock it is compared with, and the
 * `date-time` form of section 5.6 of RFC 3339 for `due_at`), their parsers, and Unix instants.
 */
module Timestamps {
  import opened Results
  import opened Text

  datatype DateTime = DateTime(year: int, month: int, day: int, hour: int, minute: int, second: int)
  {
    /** A proleptic Gregorian date and time of day that Go writes with a four-digit year. */
    predicate Valid() {
      0 <= year <= 9999 && 1 <= month <= 12 && 1 <= day <= DaysIn(year, month)
      && 0 <= hour < 24 && 0 <= minute < 60 && 0 <= second < 60
    }

    /** The same reading with the seconds dropped, as a minute layout keeps it. */
    function ToMinute(): DateTime {
      this.(second := 0)
    }
  }

  /** A UTC `time.Time`: a calendar reading plus the nanoseconds within its second. */
  datatype Time = Time(clock: DateTime, nanos: int)
  {
    predicate Valid() {
      clock.Valid() && 0 <= nanos < NanosPerSecond
    }

    /** The same instant truncated to whole seconds. */
    function Truncated(): Time {
      Time(clock, 0)
    }
  }

  type UtcTime = t: Time | t.Valid() witness Time(DateTime(1970, 1, 1, 0, 0, 0), 0)

  const NanosPerSecond: int := 1_000_000_000

  predicate IsLeap(y: int) {
    y % 4 == 0 && (y % 100 != 0 || y % 400 == 0)
  }

  function DaysIn(year: int, month: int): int
    requires 1 <= month <= 12
  {
    if month == 2 then (if IsLeap(year) then 29 else 28)
    else if month == 4 || month == 6 || month == 9 || month == 11 then 30
    else 31
  }

  // ----- chronological order -----

  /** `a` is an earlier minute than `b` (seconds ignored). */
  predicate MinuteBefore(a: DateTime, b: DateTime) {
    a.year < b.year || (a.year == b.year && (a.month < b.month || (a.month == b.month &&
    (a.day < b.day || (a.day == b.day && (a.hour < b.hour || (a.hour == b.hour && a.minute < b.minute)))))))
  }

  predicate SameMinute(a: DateTime, b: DateTime) {
    a.year == b.year && a.month == b.month && a.day == b.day && a.hour == b.hour && a.minute == b.minute
  }

  /** `a` is an earlier second than `b`. */
  predicate Before(a: DateTime, b: DateTime) {
    MinuteBefore(a, b) || (SameMinute(a, b) && a.second < b.second)
  }

  // ----- fixed-width digits -----

  function Pad2(n: int): (r: string)
    requires 0 <= n < 100
    ensures |r| == 2 && AllDigits(r)
  {
    [DigitChar(n / 10), DigitChar(n % 10)]
  }

  function Pad4(n: int): (r: string)
    requires 0 <= n < 10000
    ensures |r| == 4 && AllDigits(r)
  {
    Pad2(n / 100) + Pad2(n % 100)
  }

  lemma {:induction false} Pad2Value(n: int)
    requires 0 <= n < 100
    ensures DigitsValue(Pad2(n)) == n
  {
    var s := Pad2(n);
    assert s[..1] == [s[0]];
    assert [s[0]][..0] == [];
    assert DigitsValue([s[0]]) == n / 10;
    assert DigitsValue(s) == DigitsValue(s[..1]) * 10 + n % 10;
  }

  lemma {:induction false} DigitsValueAppend2(x: string, y: string)
    requires AllDigits(x) && AllDigits(y) && |y| == 2
    ensures DigitsValue(x + y) == DigitsValue(x) * 100 + DigitsValue(y)
  {
    var s := x + y;
    var a, b := DigitValue(y[0]), DigitValue(y[1]);
    assert s[..|s| - 1] == x + [y[0]];
    assert (x + [y[0]])[..|x|] == x;
    assert DigitsValue(x + [y[0]]) == DigitsValue(x) * 10 + a;
    assert DigitsValue(s) == (DigitsValue(x) * 10 + a) * 10 + b;
    assert y[..|y| - 1] == [y[0]] && [y[0]][..0] == [];
    assert DigitsValue(y) == DigitsValue([y[0]]) * 10 + b;
  }

  lemma {:induction false} Pad4Value(n: int)
    requires 0 <= n < 10000
    ensures DigitsValue(Pad4(n)) == n
  {
    DigitsValueAppend2(Pad2(n / 100), Pad2(n % 100));
    Pad2Value(n / 100);
    Pad2Value(n % 100);
  }

  /** Two-digit fields compare as text the way their numbers compare. */
  lemma {:induction false} Pad2Order(a: int, b: int)
    requires 0 <= a < 100 && 0 <= b < 100
    ensures StrLess(Pad2(a), Pad2(b)) <==> a < b
    ensures Pad2(a) == Pad2(b) <==> a == b
  {
    var x, y := Pad2(a), Pad2(b);
    assert x[1..] == [x[1]] && y[1..] == [y[1]];
    assert [x[1]][1..] == [] && [y[1]][1..] == [];
    assert x[0] < y[0] <==> a / 10 < b / 10;
    assert x[1] < y[1] <==> a % 10 < b % 10;
    assert a < b <==> a / 10 < b / 10 || (a / 10 == b / 10 && a % 10 < b % 10);
    assert StrLess([x[1]], [y[1]]) <==> x[1] < y[1];
    assert StrLess(x, y) <==> x[0] < y[0] || (x[0] == y[0] && StrLess([x[1]], [y[1]]));
    Pad2Value(a);
    Pad2Value(b);
  }

  /** Four-digit fields compare as text the way their numbers compare. */
  lemma {:induction false} Pad4Order(a: int, b: int)
    requires 0 <= a < 10000 && 0 <= b < 10000
    ensures StrLess(Pad4(a), Pad4(b)) <==> a < b
    ensures Pad4(a) == Pad4(b) <==> a == b
  {
    StrLessConcat(Pad2(a / 100), Pad2(a % 100), Pad2(b / 100), Pad2(b % 100));
    Pad2Order(a / 100, b / 100);
    Pad2Order(a % 100, b % 100);
    Pad4Value(a);
    Pad4Value(b);
  }

  /** A separator and a two-digit field, followed by the rest of the text. */
  function Field(sep: char, n: int, rest: string): (r: string)
    requires 0 <= n < 100
    ensures |r| == 3 + |rest|
  {
    [sep] + Pad2(n) + rest
  }

  lemma {:induction false} FieldOrder(sep: char, a: int, r1: string, b: int, r2: string)
    requires 0 <= a < 100 && 0 <= b < 100
    ensures StrLess(Field(sep, a, r1), Field(sep, b, r2)) <==> a < b || (a == b && StrLess(r1, r2))
    ensures Field(sep, a, r1) == Field(sep, b, r2) <==> a == b && r1 == r2
  {
    var x, y := [sep] + Pad2(a), [sep] + Pad2(b);
    StrLessConcat(x, r1, y, r2);
    assert x[1..] == Pad2(a) && y[1..] == Pad2(b);
    Pad2Order(a, b);
    if Field(sep, a, r1) == Field(sep, b, r2) {
      assert x == Field(sep, a, r1)[..3] && y == Field(sep, b, r2)[..3];
      assert r1 == Field(sep, a, r1)[3..] && r2 == Field(sep, b, r2)[3..];
      assert Pad2(a) == Pad2(b);
    }
  }

  // ----- the minute layout "2006-01-02 15:04" -----

  /** `t.Format("2006-01-02 15:04")`. */
  function FormatMinute(t: DateTime): (r: string)
    requires t.Valid()
    ensures |r| == 16
  {
    Pad4(t.year) + Field('-', t.month, Field('-', t.day, Field(' ', t.hour, Field(':', t.minute, ""))))
  }

  function MinuteTail(t: DateTime): string
    requires t.Valid()
  {
    Field('-', t.month, Field('-', t.day, Field(' ', t.hour, Field(':', t.minute, ""))))
  }

  /**
   * Text order of minute-layout stamps is chronological order, and equal text is the
   * same minute: what lets SQL compare the `datetime` column as TEXT.
   */
  lemma {:induction false} FormatMinuteOrder(a: DateTime, b: DateTime)
    requires a.Valid() && b.Valid()
    ensures StrLess(FormatMinute(a), FormatMinute(b)) <==> MinuteBefore(a, b)
    ensures FormatMinute(a) == FormatMinute(b) <==> SameMinute(a, b)
  {
    StrLessConcat(Pad4(a.year), MinuteTail(a), Pad4(b.year), MinuteTail(b));
    Pad4Order(a.year, b.year);
    FieldOrder(':', a.minute, "", b.minute, "");
    FieldOrder(' ', a.hour, Field(':', a.minute, ""), b.hour, Field(':', b.minute, ""));
    FieldOrder('-', a.day, Field(' ', a.hour, Field(':', a.minute, "")),
                    b.day, Field(' ', b.hour, Field(':', b.minute, "")));
    FieldOrder('-', a.month, Field('-', a.day, Field(' ', a.hour, Field(':', a.minute, ""))),
                    b.month, Field('-', b.day, Field(' ', b.hour, Field(':', b.minute, ""))));
    StrLessIrreflexive("");
    if FormatMinute(a) == FormatMinute(b) {
      assert Pad4(a.year) == FormatMinute(a)[..4] && Pad4(b.year) == FormatMinute(b)[..4];
      assert MinuteTail(a) == FormatMinute(a)[4..] && MinuteTail(b) == FormatMinute(b)[4..];
    }
  }

  /** Two digits of `s` from position `i`. */
  function Two(s: string, i: nat): int
    requires i + 2 <= |s| && AllDigits(s[i..i + 2])
  {
    DigitsValue(s[i..i + 2])
  }

  predicate DigitsAt(s: string, i: nat, n: nat) {
    i + n <= |s| && AllDigits(s[i..i + n])
  }

  /** Where the run of spaces starting at `i` ends. */
  function SkipSpaces(s: string, i: nat): (j: nat)
    requires i <= |s|
    ensures i <= j <= |s|
    ensures forall k :: i <= k < j ==> s[k] == ' '
    ensures j == |s| || s[j] != ' '
    decreases |s| - i
  {
    if i < |s| && s[i] == ' ' then SkipSpaces(s, i + 1) else i
  }

  /**
   * `time.Parse("2006-01-02 15:04", s)` in UTC: a four-digit year, two-digit month and day,
   * one or more spaces (a space of the layout matches a run of spaces), a one- or two-digit
   * hour (layout element `15`), a two-digit minute, nothing after it; month, hour and
   * minute in range and the day within its month.
   */
  function ParseMinute(s: string): (r: Option<DateTime>)
    ensures r.Some? ==> r.value.Valid() && r.value.second == 0
  {
    if !(DigitsAt(s, 0, 4) && |s| > 10 && s[4] == '-' && DigitsAt(s, 5, 2) && s[7] == '-'
         && DigitsAt(s, 8, 2) && s[10] == ' ') then None
    else
      var h := SkipSpaces(s, 10);
      if !DigitsAt(s, h, 1) then None
      else
        var hourDigits := if DigitsAt(s, h, 2) then 2 else 1;
        var m := h + hourDigits;
        if !(|s| == m + 3 && s[m] == ':' && DigitsAt(s, m + 1, 2)) then None
        else
          var year, month, day := DigitsValue(s[0..4]), Two(s, 5), Two(s, 8);
          var hour, minute := DigitsValue(s[h..m]), Two(s, m + 1);
          if !(1 <= month <= 12 && hour < 24 && minute < 60) then None
          else if !(1 <= day <= DaysIn(year, month)) then None
          else
            DigitsValueBelow(s[0..4]);
            assert Pow10(4) == 10000;
            DigitsValueBelow(s[h..m]);
            Some(DateTime(year, month, day, hour, minute, 0))
  }

  lemma {:induction false} FieldAt(sep: char, n: int, rest: string)
    requires 0 <= n < 100
    ensures var f := Field(sep, n, rest); f[0] == sep && f[1..3] == Pad2(n) && f[3..] == rest
  {
  }

  /** Formatting to the minute layout and parsing back gives the reading without its seconds. */
  lemma {:induction false} ParseFormatMinute(t: DateTime)
    requires t.Valid()
    ensures ParseMinute(FormatMinute(t)) == Some(t.ToMinute())
  {
    var s := FormatMinute(t);
    var f1 := Field(':', t.minute, "");
    var f2 := Field(' ', t.hour, f1);
    var f3 := Field('-', t.day, f2);
    var f4 := Field('-', t.month, f3);
    assert s == Pad4(t.year) + f4;
    assert s[0..4] == Pad4(t.year) && s[4..] == f4;
    FieldAt('-', t.month, f3);
    FieldAt('-', t.day, f2);
    FieldAt(' ', t.hour, f1);
    FieldAt(':', t.minute, "");
    assert s[7..] == f3 && s[10..] == f2 && s[13..] == f1;
    assert s[5..7] == Pad2(t.month) && s[8..10] == Pad2(t.day);
    assert s[11..13] == Pad2(t.hour) && s[14..16] == Pad2(t.minute);
    assert SkipSpaces(s, 10) == 11 by {
      assert IsDigit(s[11]);
    }
    Pad4Value(t.year);
    Pad2Value(t.month);
    Pad2Value(t.day);
    Pad2Value(t.hour);
    Pad2Value(t.minute);
  }

  // ----- RFC 3339 -----

  /** `t.UTC().Format(time.RFC3339)`: `YYYY-MM-DDTHH:MM:SSZ`, the fraction of the second dropped. */
  function FormatRfc3339(t: DateTime): (r: string)
    requires t.Valid()
    ensures |r| == 20
  {
    Pad4(t.year) + Rfc3339Tail(t)
  }

  function Rfc3339Tail(t: DateTime): string
    requires t.Valid()
  {
    Field('-', t.month, Field('-', t.day, Field('T', t.hour, Field(':', t.minute, Field(':', t.second, "Z")))))
  }

  /**
   * `time.Parse(time.RFC3339, s)` on the text `FormatRfc3339` writes: fixed-width fields,
   * `T` and `Z`, every field in range and the day within its month.
   */
  function ParseRfc3339(s: string): (r: Option<DateTime>)
    ensures r.Some? ==> r.value.Valid()
  {
    if !(|s| == 20 && DigitsAt(s, 0, 4) && s[4] == '-' && DigitsAt(s, 5, 2) && s[7] == '-'
         && DigitsAt(s, 8, 2) && s[10] == 'T' && DigitsAt(s, 11, 2) && s[13] == ':'
         && DigitsAt(s, 14, 2) && s[16] == ':' && DigitsAt(s, 17, 2) && s[19] == 'Z') then None
    else
      var year, month, day := DigitsValue(s[0..4]), Two(s, 5), Two(s, 8);
      var hour, minute, second := Two(s, 11), Two(s, 14), Two(s, 17);
      if !(1 <= month <= 12 && hour < 24 && minute < 60 && second < 60) then None
      else if !(1 <= day <= DaysIn(year, month)) then None
      else
        DigitsValueBelow(s[0..4]);
        assert Pow10(4) == 10000;
        Some(DateTime(year, month, day, hour, minute, second))
  }

  /** Formatting with RFC 3339 and parsing back gives the same reading (to the second). */
  lemma {:induction false} ParseFormatRfc3339(t: DateTime)
    requires t.Valid()
    ensures ParseRfc3339(FormatRfc3339(t)) == Some(t)
  {
    var s := FormatRfc3339(t);
    var f0 := Field(':', t.second, "Z");
    var f1 := Field(':', t.minute, f0);
    var f2 := Field('T', t.hour, f1);
    var f3 := Field('-', t.day, f2);
    var f4 := Field('-', t.month, f3);
    assert s == Pad4(t.year) + f4;
    assert s[0..4] == Pad4(t.year) && s[4..] == f4;
    FieldAt('-', t.month, f3);
    FieldAt('-', t.day, f2);
    FieldAt('T', t.hour, f1);
    FieldAt(':', t.minute, f0);
    FieldAt(':', t.second, "Z");
    assert s[7..] == f3 && s[10..] == f2 && s[13..] == f1 && s[16..] == f0;
    assert s[5..7] == Pad2(t.month) && s[8..10] == Pad2(t.day) && s[11..13] == Pad2(t.hour);
    assert s[14..16] == Pad2(t.minute) && s[17..19] == Pad2(t.second);
    Pad4Value(t.year);
    Pad2Value(t.month);
    Pad2Value(t.day);
    Pad2Value(t.hour);
    Pad2Value(t.minute);
    Pad2Value(t.second);
  }

  /** Two digits are the fixed-width text of their value. */
  lemma {:induction false} Pad2OfDigits(s: string)
    requires |s| == 2 && AllDigits(s)
    ensures DigitsValue(s) < 100 && Pad2(DigitsValue(s)) == s
  {
    assert s[..1] == [s[0]] && [s[0]][..0] == [];
    assert DigitsValue([s[0]]) == DigitValue(s[0]);
    assert DigitsValue(s) == DigitValue(s[0]) * 10 + DigitValue(s[1]);
  }

  /** Four digits are the fixed-width text of their value. */
  lemma {:induction false} Pad4OfDigits(s: string)
    requires |s| == 4 && AllDigits(s)
    ensures DigitsValue(s) < 10000 && Pad4(DigitsValue(s)) == s
  {
    var hi, lo := s[..2], s[2..];
    assert s == hi + lo;
    DigitsValueAppend2(hi, lo);
    DigitsValueBelow(lo);
    DigitsValueBelow(hi);
    assert Pow10(2) == 100;
    var n := DigitsValue(s);
    assert n / 100 == DigitsValue(hi) && n % 100 == DigitsValue(lo);
    Pad2OfDigits(hi);
    Pad2OfDigits(lo);
  }

  /** Every text the parser accepts is exactly what formatting its reading writes. */
  lemma {:induction false} FormatParseRfc3339(s: string)
    requires ParseRfc3339(s).Some?
    ensures FormatRfc3339(ParseRfc3339(s).value) == s
  {
    var t := ParseRfc3339(s).value;
    var u := FormatRfc3339(t);
    var f0 := Field(':', t.second, "Z");
    var f1 := Field(':', t.minute, f0);
    var f2 := Field('T', t.hour, f1);
    var f3 := Field('-', t.day, f2);
    var f4 := Field('-', t.month, f3);
    assert u == Pad4(t.year) + f4;
    assert u[0..4] == Pad4(t.year) && u[4..] == f4;
    FieldAt('-', t.month, f3);
    FieldAt('-', t.day, f2);
    FieldAt('T', t.hour, f1);
    FieldAt(':', t.minute, f0);
    FieldAt(':', t.second, "Z");
    assert u[7..] == f3 && u[10..] == f2 && u[13..] == f1 && u[16..] == f0;
    assert u[5..7] == Pad2(t.month) && u[8..10] == Pad2(t.day) && u[11..13] == Pad2(t.hour);
    assert u[14..16] == Pad2(t.minute) && u[17..19] == Pad2(t.second);
    Pad4OfDigits(s[0..4]);
    Pad2OfDigits(s[5..7]);
    Pad2OfDigits(s[8..10]);
    Pad2OfDigits(s[11..13]);
    Pad2OfDigits(s[14..16]);
    Pad2OfDigits(s[17..19]);
    assert u[0..4] == s[0..4] && u[5..7] == s[5..7] && u[8..10] == s[8..10];
    assert u[11..13] == s[11..13] && u[14..16] == s[14..16] && u[17..19] == s[17..19];
    forall k | 0 <= k < 20
      ensures u[k] == s[k]
    {
      if k < 4 {
        assert u[k] == u[0..4][k] && s[k] == s[0..4][k];
      } else if 5 <= k < 7 {
        assert u[k] == u[5..7][k - 5] && s[k] == s[5..7][k - 5];
      } else if 8 <= k < 10 {
        assert u[k] == u[8..10][k - 8] && s[k] == s[8..10][k - 8];
      } else if 11 <= k < 13 {
        assert u[k] == u[11..13][k - 11] && s[k] == s[11..13][k - 11];
      } else if 14 <= k < 16 {
        assert u[k] == u[14..16][k - 14] && s[k] == s[14..16][k - 14];
      } else if 17 <= k < 19 {
        assert u[k] == u[17..19][k - 17] && s[k] == s[17..19][k - 17];
      }
    }
  }

  /** Text order of RFC 3339 UTC stamps is chronological order, to the second. */
  lemma {:induction false} FormatRfc3339Order(a: DateTime, b: DateTime)
    requires a.Valid() && b.Valid()
    ensures StrLess(FormatRfc3339(a), FormatRfc3339(b)) <==> Before(a, b)
    ensures FormatRfc3339(a) == FormatRfc3339(b) <==> a == b
  {
    StrLessConcat(Pad4(a.year), Rfc3339Tail(a), Pad4(b.year), Rfc3339Tail(b));
    Pad4Order(a.year, b.year);
    FieldOrder(':', a.second, "Z", b.second, "Z");
    FieldOrder(':', a.minute, Field(':', a.second, "Z"), b.minute, Field(':', b.second, "Z"));
    FieldOrder('T', a.hour, Field(':', a.minute, Field(':', a.second, "Z")),
                    b.hour, Field(':', b.minute, Field(':', b.second, "Z")));
    FieldOrder('-', a.day, Field('T', a.hour, Field(':', a.minute, Field(':', a.second, "Z"))),
                    b.day, Field('T', b.hour, Field(':', b.minute, Field(':', b.second, "Z"))));
    FieldOrder('-', a.month, Field('-', a.day, Field('T', a.hour, Field(':', a.minute, Field(':', a.second, "Z")))),
                    b.month, Field('-', b.day, Field('T', b.hour, Field(':', b.minute, Field(':', b.second, "Z")))));
    StrLessIrreflexive("Z");
    if FormatRfc3339(a) == FormatRfc3339(b) {
      assert Pad4(a.year) == FormatRfc3339(a)[..4] && Pad4(b.year) == FormatRfc3339(b)[..4];
      assert Rfc3339Tail(a) == FormatRfc3339(a)[4..] && Rfc3339Tail(b) == FormatRfc3339(b)[4..];
    }
  }

  // ----- instants -----

  function YearLength(y: int): int {
    if IsLeap(y) then 366 else 365
  }

  /** Days from 0000-01-01 to the first day of year `y`. */
  function DaysBeforeYear(y: nat): nat {
    if y == 0 then 0 else DaysBeforeYear(y - 1) + YearLength(y - 1)
  }

  /** Days from the first of January to the first day of `month`. */
  function DaysBeforeMonth(year: int, month: int): int
    requires 1 <= month <= 12
  {
    [0, 31, 59, 90, 120, 151, 181, 212, 243, 273, 304, 334][month - 1]
    + (if month > 2 && IsLeap(year) then 1 else 0)
  }

  /** Days since 0000-01-01 in the proleptic Gregorian calendar. */
  function DayNumber(t: DateTime): int
    requires t.Valid()
  {
    DaysBeforeYear(t.year) + DaysBeforeMonth(t.year, t.month) + t.day - 1
  }

  function SecondOfDay(t: DateTime): int {
    t.hour * 3600 + t.minute * 60 + t.second
  }

  const UnixEpoch: DateTime := DateTime(1970, 1, 1, 0, 0, 0)

  /** Go's zero `time.Time`: January 1 of year 1, 00:00:00 UTC. */
  const ZeroTime: DateTime := DateTime(1, 1, 1, 0, 0, 0)

  /** Nanoseconds since the Unix epoch. */
  function Instant(t: DateTime): int
    requires t.Valid()
  {
    ((DayNumber(t) - DayNumber(UnixEpoch)) * 86400 + SecondOfDay(t)) * NanosPerSecond
  }

  /**
   * `Deadline.Time()`: the instant a `datetime` text names when parsed with the minute
   * layout in UTC, or Go's zero time when it does not parse.
   */
  function MinuteTime(s: string): int {
    match ParseMinute(s)
    case Some(t) => Instant(t)
    case None => Instant(ZeroTime)
  }

  lemma {:induction false} DaysBeforeYearGrows(y: nat, z: nat)
    requires y < z
    ensures DaysBeforeYear(y) + YearLength(y) <= DaysBeforeYear(z)
    decreases z - y
  {
    if y + 1 < z {
      DaysBeforeYearGrows(y + 1, z);
    }
  }

  lemma {:induction false} DaysBeforeMonthGrows(year: int, m: int, n: int)
    requires 1 <= m < n <= 12
    ensures DaysBeforeMonth(year, m) + DaysIn(year, m) <= DaysBeforeMonth(year, n)
  {
  }

  lemma {:induction false} DayWithinYear(t: DateTime)
    requires t.Valid()
    ensures DaysBeforeMonth(t.year, t.month) + t.day - 1 < YearLength(t.year)
  {
  }

  /** Later readings are later instants. */
  lemma {:induction false} InstantMonotonic(a: DateTime, b: DateTime)
    requires a.Valid() && b.Valid() && Before(a, b)
    ensures Instant(a) < Instant(b)
  {
    if a.year < b.year {
      DaysBeforeYearGrows(a.year, b.year);
      DayWithinYear(a);
    } else if a.month < b.month {
      DaysBeforeMonthGrows(a.year, a.month, b.month);
    }
    assert DayNumber(a) < DayNumber(b) || (DayNumber(a) == DayNumber(b) && SecondOfDay(a) < SecondOfDay(b));
  }

  /**
   * For well-formed minute-layout text, the SQL comparison `a < b` on TEXT and
   * the comparison of the instants `Deadline.Time()` gives agree.
   */
  lemma {:induction false} MinuteTextOrderIsTimeOrder(a: DateTime, b: DateTime)
    requires a.Valid() && b.Valid()
    ensures StrLess(FormatMinute(a), FormatMinute(b)) <==> MinuteTime(FormatMinute(a)) < MinuteTime(FormatMinute(b))
  {
    ParseFormatMinute(a);
    ParseFormatMinute(b);
    FormatMinuteOrder(a, b);
    var a', b' := a.ToMinute(), b.ToMinute();
    if MinuteBefore(a, b) {
      InstantMonotonic(a', b');
    } else if SameMinute(a, b) {
      assert a' == b';
    } else {
      InstantMonotonic(b', a');
    }
  }

  /** The stamp `FormatMinute` writes for 15:04 on 2 January 2024. */
  lemma {:induction false} FormatMinuteExample()
    ensures FormatMinute(DateTime(2024, 1, 2, 15, 4, 0)) == "2024-01-02 15:04"
  {
    assert Pad4(2024) == "2024" by { assert Pad2(20) == "20" && Pad2(24) == "24"; }
    assert Pad2(1) == "01" && Pad2(2) == "02" && Pad2(15) == "15" && Pad2(4) == "04";
  }

  lemma {:induction false} DigitsValueExamples()
    ensures AllDigits("2024") && DigitsValue("2024") == 2024
    ensures AllDigits("01") && DigitsValue("01") == 1
    ensures AllDigits("02") && DigitsValue("02") == 2
    ensures AllDigits("04") && DigitsValue("04") == 4
    ensures AllDigits("5") && DigitsValue("5") == 5
  {
    assert "2024"[..3] == "202" && "202"[..2] == "20" && "20"[..1] == "2" && "2"[..0] == [];
    assert "01"[..1] == "0" && "02"[..1] == "0" && "04"[..1] == "0" && "0"[..0] == [] && "5"[..0] == [];
  }

  lemma {:induction false} ParseOneDigitHour()
    ensures ParseMinute("2024-01-02 5:04") == Some(DateTime(2024, 1, 2, 5, 4, 0))
  {
    var e := "2024-01-02 5:04";
    DigitsValueExamples();
    assert e[0..4] == "2024" by { assert |e[0..4]| == 4 && e[0] == '2' && e[1] == '0' && e[2] == '2' && e[3] == '4'; }
    assert e[5..7] == "01" by { assert |e[5..7]| == 2 && e[5] == '0' && e[6] == '1'; }
    assert e[8..10] == "02" by { assert |e[8..10]| == 2 && e[8] == '0' && e[9] == '2'; }
    assert e[11..12] == "5" by { assert |e[11..12]| == 1 && e[11] == '5'; }
    assert e[13..15] == "04" by { assert |e[13..15]| == 2 && e[13] == '0' && e[14] == '4'; }
    assert SkipSpaces(e, 10) == 11 by { assert e[10] == ' ' && e[11] == '5'; }
    assert !DigitsAt(e, 11, 2) by { assert e[12] == ':'; }
    assert DaysIn(2024, 1) == 31;
  }

  /**
   * The parser takes a one-digit hour, and such a text sorts after a later time of the same
   * day: text order is time order only for the stamps `FormatMinute` writes.
   */
  lemma {:induction false} OneDigitHourSortsLate()
    ensures ParseMinute("2024-01-02 5:04") == Some(DateTime(2024, 1, 2, 5, 4, 0))
    ensures ParseMinute("2024-01-02 15:04") == Some(DateTime(2024, 1, 2, 15, 4, 0))
    ensures Before(DateTime(2024, 1, 2, 5, 4, 0), DateTime(2024, 1, 2, 15, 4, 0))
    ensures StrLess("2024-01-02 15:04", "2024-01-02 5:04")
  {
    var late := DateTime(2024, 1, 2, 15, 4, 0);
    ParseOneDigitHour();
    FormatMinuteExample();
    ParseFormatMinute(late);
    assert late.ToMinute() == late;
    OneDigitHourTextOrder();
  }

  lemma {:induction false} OneDigitHourTextOrder()
    ensures StrLess("2024-01-02 15:04", "2024-01-02 5:04")
  {
    var day, late, early := "2024-01-02 ", "15:04", "5:04";
    StrLessIrreflexive(day);
    assert StrLess(late, early) by { assert late[0] == '1' && early[0] == '5'; }
    StrLessConcat(day, late, day, early);
    assert day + late == "2024-01-02 15:04";
    assert day + early == "2024-01-02 5:04";
  }
}
