/**
 * Stamp dates: the calendar record a Ruby `Time` carries, `Time.utc`
 * (range checks and roll-over of overflowing components), the positional
 * date decoder `parse_date` and the variable-precision encoder
 * `date_to_str`.
 */
module Calendar {
  import opened Wrappers
  import opened RubyText

  /** A UTC calendar time with second precision. */
  datatype DateTime = DateTime(year: int, month: int, day: int, hour: int, minute: int, second: int)

  predicate IsLeapYear(y: int) {
    y % 4 == 0 && (y % 100 != 0 || y % 400 == 0)
  }

  function DaysInMonth(y: int, m: int): (n: int)
    requires 1 <= m <= 12
    ensures 28 <= n <= 31
  {
    if m == 2 then (if IsLeapYear(y) then 29 else 28)
    else if m == 4 || m == 6 || m == 9 || m == 11 then 30
    else 31
  }

  /** Every component of the time lies in its calendar range, as in a `Time` object. */
  predicate ValidDate(t: DateTime) {
    && 1 <= t.month <= 12
    && 1 <= t.day <= DaysInMonth(t.year, t.month)
    && 0 <= t.hour < 24
    && 0 <= t.minute < 60
    && 0 <= t.second < 60
  }

  /** Days from 1970-01-01 to January 1st of year `y` (proleptic Gregorian calendar). */
  function DaysBeforeYear(y: int): int {
    var p := y - 1;
    365 * p + p / 4 - p / 100 + p / 400 - 719162
  }

  /** Days from January 1st to the first day of month `m` of year `y`. */
  function DaysBeforeMonth(y: int, m: int): int
    requires 1 <= m <= 12
  {
    var cumulative := [0, 31, 59, 90, 120, 151, 181, 212, 243, 273, 304, 334];
    cumulative[m - 1] + (if m > 2 && IsLeapYear(y) then 1 else 0)
  }

  /**
   * The Unix time named by calendar components; a day, hour, minute or
   * second past the end of its range simply counts on into the next unit.
   */
  function EpochSeconds(y: int, mo: int, d: int, h: int, mi: int, s: int): int
    requires 1 <= mo <= 12
  {
    (((DaysBeforeYear(y) + DaysBeforeMonth(y, mo) + d - 1) * 24 + h) * 60 + mi) * 60 + s
  }

  function ToSeconds(t: DateTime): int
    requires 1 <= t.month <= 12
  {
    EpochSeconds(t.year, t.month, t.day, t.hour, t.minute, t.second)
  }

  /** The component ranges `Time.utc` accepts; outside them it raises `ArgumentError`. */
  predicate UtcArgsInRange(mo: int, d: int, h: int, mi: int, s: int) {
    && 1 <= mo <= 12
    && 1 <= d <= 31
    && 0 <= h <= 24
    && 0 <= mi <= 59
    && 0 <= s <= 60
    && (h == 24 ==> mi == 0 && s == 0)
  }

  lemma DivStep(y: int)
    ensures y / 4 - (y - 1) / 4 == (if y % 4 == 0 then 1 else 0)
    ensures y / 100 - (y - 1) / 100 == (if y % 100 == 0 then 1 else 0)
    ensures y / 400 - (y - 1) / 400 == (if y % 400 == 0 then 1 else 0)
  {
  }

  /** Multiples of 400 are multiples of 100, and those are multiples of 4. */
  lemma DivisibilityChain(y: int)
    ensures y % 400 == 0 ==> y % 100 == 0
    ensures y % 100 == 0 ==> y % 4 == 0
  {
  }

  /** Between January 1st of `y` and of `y + 1` the three leap-year rules add one day exactly in a leap year. */
  lemma LeapDays(y: int)
    ensures (y / 4 - (y - 1) / 4) - (y / 100 - (y - 1) / 100) + (y / 400 - (y - 1) / 400)
         == if IsLeapYear(y) then 1 else 0
  {
    DivStep(y);
    DivisibilityChain(y);
  }

  /** A year is 365 days long, one more in a leap year. */
  lemma YearLength(y: int)
    ensures DaysBeforeYear(y + 1) == DaysBeforeYear(y) + DaysBeforeMonth(y, 12) + 31
  {
    LeapDays(y);
    assert DaysBeforeYear(y + 1) - DaysBeforeYear(y)
        == 365 + (y / 4 - (y - 1) / 4) - (y / 100 - (y - 1) / 100) + (y / 400 - (y - 1) / 400);
  }

  lemma MonthLength(y: int, m: int)
    requires 1 <= m < 12
    ensures DaysBeforeMonth(y, m + 1) == DaysBeforeMonth(y, m) + DaysInMonth(y, m)
  {
  }

  /**
   * The time `Time.utc` builds from in-range components: a 60th second,
   * a 24th hour or a day past the month's end carries into the next
   * minute, day or month (and December into the next year).
   */
  function Normalize(y: int, mo: int, d: int, h: int, mi: int, s: int): (t: DateTime)
    requires UtcArgsInRange(mo, d, h, mi, s)
    ensures ValidDate(t) && ToSeconds(t) == EpochSeconds(y, mo, d, h, mi, s)
  {
    var (mi1, s1) := if s == 60 then (mi + 1, 0) else (mi, s);
    var (h1, mi2) := if mi1 == 60 then (h + 1, 0) else (h, mi1);
    var (d1, h2) := if h1 == 24 then (d + 1, 0) else (d, h1);
    var dim := DaysInMonth(y, mo);
    var (mo1, d2) := if d1 > dim then (mo + 1, d1 - dim) else (mo, d1);
    var (y1, mo2) := if mo1 == 13 then (y + 1, 1) else (y, mo1);
    if mo1 == 13 then
      YearLength(y);
      DateTime(y1, mo2, d2, h2, mi2, s1)
    else if mo1 != mo then
      MonthLength(y, mo);
      DateTime(y1, mo2, d2, h2, mi2, s1)
    else
      DateTime(y1, mo2, d2, h2, mi2, s1)
  }

  /**
   * `Time.utc(y, mo, d, h, mi, s)`: `None` where Ruby raises
   * `ArgumentError` (argument out of range).
   */
  function MakeUtc(y: int, mo: int, d: int, h: int, mi: int, s: int): (r: Option<DateTime>)
    ensures r.Some? <==> UtcArgsInRange(mo, d, h, mi, s)
    ensures r.Some? ==> ValidDate(r.value) && ToSeconds(r.value) == EpochSeconds(y, mo, d, h, mi, s)
    ensures ValidDate(DateTime(y, mo, d, h, mi, s)) ==> r == Some(DateTime(y, mo, d, h, mi, s))
  {
    if UtcArgsInRange(mo, d, h, mi, s) then Some(Normalize(y, mo, d, h, mi, s)) else None
  }

  /**
   * `parse_date`: two-character fields at offsets 0, 2, 4, 6, 8 and 10
   * give year (2000 + YY), month, day, hour, minute and second; a field
   * past the end of the text reads as 0.
   */
  function ParseDate(date: string): (r: Option<DateTime>)
    ensures r.Some? ==> ValidDate(r.value) && 1991 <= r.value.year <= 2100
  {
    var year := ToIOpt(Slice(date, 0, 2));
    var month := ToIOpt(Slice(date, 2, 2));
    var day := ToIOpt(Slice(date, 4, 2));
    var hour := ToIOpt(Slice(date, 6, 2));
    var min := ToIOpt(Slice(date, 8, 2));
    var sec := ToIOpt(Slice(date, 10, 2));
    TwoCharBound(Slice(date, 0, 2));
    MakeUtc(2000 + year, month, day, hour, min, sec)
  }

  /** The two-digit numerals of the given components, one after another. */
  function PadAll(ns: seq<int>): (r: string)
    requires forall i :: 0 <= i < |ns| ==> 0 <= ns[i] < 100
    ensures |r| == 2 * |ns| && AllDigits(r)
  {
    if ns == [] then [] else Pad2(ns[0]) + PadAll(ns[1..])
  }

  /**
   * `date_to_str`: `%y%m%d`, followed by `%H%M` unless hour, minute and
   * second are all zero, followed by `%S` unless the second is zero.
   */
  function DateToStr(t: DateTime): (r: string)
    requires ValidDate(t)
    ensures AllDigits(r) && ':' !in r
    ensures |r| == 6 <==> t.hour == 0 && t.minute == 0 && t.second == 0
    ensures |r| == 10 <==> t.second == 0 && !(t.hour == 0 && t.minute == 0)
    ensures |r| == 12 <==> t.second != 0
  {
    PadAll(EncodedComponents(t))
  }

  /** The components `date_to_str` writes, in order. */
  function EncodedComponents(t: DateTime): (ns: seq<int>)
    requires ValidDate(t)
    ensures forall i :: 0 <= i < |ns| ==> 0 <= ns[i] < 100
  {
    var ymd := [t.year % 100, t.month, t.day];
    if t.second == 0 && t.hour == 0 && t.minute == 0 then ymd
    else if t.second == 0 then ymd + [t.hour, t.minute]
    else ymd + [t.hour, t.minute, t.second]
  }

  // ---- Lemmas ----

  /** `to_i` of a field of at most two characters lies in -9..99. */
  lemma TwoCharBound(f: Option<string>)
    requires f.Some? ==> |f.value| <= 2
    ensures -9 <= ToIOpt(f) <= 99
  {
    if f.Some? {
      ShortToIBound(f.value);
    }
  }

  lemma LeapYearOfTwoDigitYear(y: int)
    requires IsLeapYear(y)
    ensures IsLeapYear(2000 + y % 100)
  {
    var q, r, k := y / 100, y % 100, y / 4;
    assert y == 100 * q + r;
    assert y == 4 * k;
    assert 2000 + r == 4 * (500 + k - 25 * q);
  }

  /** `to_i` reads back a two-digit field wherever it sits in the text. */
  lemma FieldOfPad2(s: string, i: nat, n: nat)
    requires n < 100 && i + 2 <= |s| && s[i..i + 2] == Pad2(n)
    ensures ToIOpt(Slice(s, i, 2)) == n
  {
    Pad2RoundTrip(n);
  }

  /** A field that starts at the end of the text reads as 0. */
  lemma FieldAtEnd(s: string)
    ensures ToIOpt(Slice(s, |s|, 2)) == 0
  {
    var r := Slice(s, |s|, 2);
    assert r.Some?;
    assert r.value == s[|s|..|s|];
    assert r.value == [];
    assert r == Some("");
  }

  lemma {:induction false} PadAllAt(ns: seq<int>, i: nat)
    requires forall j :: 0 <= j < |ns| ==> 0 <= ns[j] < 100
    requires i < |ns|
    ensures PadAll(ns)[2 * i..2 * i + 2] == Pad2(ns[i])
  {
    if i > 0 {
      PadAllAt(ns[1..], i - 1);
      var r := PadAll(ns);
      assert r == Pad2(ns[0]) + PadAll(ns[1..]);
      assert r[2 * i..2 * i + 2] == PadAll(ns[1..])[2 * (i - 1)..2 * (i - 1) + 2];
    }
  }

  /** The field at offset 2i of a run of two-digit numerals reads back as the i-th number, or 0 past the end. */
  lemma PadAllField(ns: seq<int>, i: nat)
    requires forall j :: 0 <= j < |ns| ==> 0 <= ns[j] < 100
    ensures ToIOpt(Slice(PadAll(ns), 2 * i, 2)) == if i < |ns| then ns[i] else 0
  {
    var s := PadAll(ns);
    if i < |ns| {
      PadAllAt(ns, i);
      FieldOfPad2(s, 2 * i, ns[i]);
    } else if i == |ns| {
      FieldAtEnd(s);
    }
  }

  /** Each two-character field of an encoded date reads back as its component. */
  lemma DateToStrFields(t: DateTime)
    requires ValidDate(t)
    ensures var s := DateToStr(t);
      && ToIOpt(Slice(s, 0, 2)) == t.year % 100
      && ToIOpt(Slice(s, 2, 2)) == t.month
      && ToIOpt(Slice(s, 4, 2)) == t.day
      && ToIOpt(Slice(s, 6, 2)) == t.hour
      && ToIOpt(Slice(s, 8, 2)) == t.minute
      && ToIOpt(Slice(s, 10, 2)) == t.second
  {
    var ns := EncodedComponents(t);
    PadAllField(ns, 0);
    PadAllField(ns, 1);
    PadAllField(ns, 2);
    PadAllField(ns, 3);
    PadAllField(ns, 4);
    PadAllField(ns, 5);
  }

  /**
   * Decoding an encoded date gives it back to the second, except that the
   * century is always taken to be 2000: the year comes back as
   * 2000 + (year mod 100).
   */
  lemma DateRoundTrip(t: DateTime)
    requires ValidDate(t)
    ensures ParseDate(DateToStr(t)) == Some(t.(year := 2000 + t.year % 100))
  {
    var u := t.(year := 2000 + t.year % 100);
    TwoDigitYearValid(t);
    DateToStrFields(t);
    ParseDateOfFields(DateToStr(t), u);
  }

  /** Moving a valid date into 2000-2099 by its last two year digits keeps it valid (29 February included). */
  lemma TwoDigitYearValid(t: DateTime)
    requires ValidDate(t)
    ensures ValidDate(t.(year := 2000 + t.year % 100))
  {
    if t.month == 2 && IsLeapYear(t.year) {
      LeapYearOfTwoDigitYear(t.year);
    }
  }

  /** A text whose six two-character fields read as the components of a valid date in 2000-2099 decodes to that date. */
  lemma ParseDateOfFields(s: string, u: DateTime)
    requires ValidDate(u) && 2000 <= u.year <= 2099
    requires ToIOpt(Slice(s, 0, 2)) == u.year - 2000
    requires ToIOpt(Slice(s, 2, 2)) == u.month && ToIOpt(Slice(s, 4, 2)) == u.day
    requires ToIOpt(Slice(s, 6, 2)) == u.hour && ToIOpt(Slice(s, 8, 2)) == u.minute
    requires ToIOpt(Slice(s, 10, 2)) == u.second
    ensures ParseDate(s) == Some(u)
  {
    assert MakeUtc(u.year, u.month, u.day, u.hour, u.minute, u.second) == Some(u);
  }

  /** For years 2000 to 2099 the round trip is exact. */
  lemma DateRoundTripThisCentury(t: DateTime)
    requires ValidDate(t) && 2000 <= t.year <= 2099
    ensures ParseDate(DateToStr(t)) == Some(t)
  {
    ThisCenturyYear(t.year);
    DateRoundTrip(t);
  }

  /** A year of 2000 to 2099 survives the two-digit encoding. */
  lemma ThisCenturyYear(y: int)
    requires 2000 <= y <= 2099
    ensures 2000 + y % 100 == y
  {
  }

  /** `060408` is 8 April 2006, midnight. */
  lemma ParseDateExample()
    ensures ParseDate("060408") == Some(DateTime(2006, 4, 8, 0, 0, 0))
  {
    var t := DateTime(2006, 4, 8, 0, 0, 0);
    assert DateToStr(t) == "060408";
    DateRoundTripThisCentury(t);
  }

  /** 8 April 2006, midnight UTC, is Unix time 1144454400. */
  lemma ExampleDateSeconds()
    ensures ToSeconds(DateTime(2006, 4, 8, 0, 0, 0)) == 1144454400
  {
    assert DaysBeforeYear(2006) == 13149;
    assert DaysBeforeMonth(2006, 4) == 90;
  }
}
