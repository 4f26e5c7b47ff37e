/**
 * Calendar date-times and the three text forms the pipeline meets:
 * `datetime.strptime` with the formats `%Y-%m-%dT%H:%M:%S` and
 * `%Y-%m-%dT%H:%M:%SZ` (the load path), `datetime.isoformat()` and
 * `str(datetime)` (what is written back), and `datetime.fromisoformat`
 * (the restore path). A date-time here has whole seconds only: `strptime`
 * with these formats never yields microseconds.
 */
module DateTimes {
  import opened Wrappers
  import opened Text

  datatype DateTime = DateTime(year: nat, month: nat, day: nat, hour: nat, minute: nat, second: nat)

  predicate IsLeapYear(y: nat) { y % 4 == 0 && (y % 100 != 0 || y % 400 == 0) }

  function DaysInMonth(y: nat, m: nat): nat
    requires 1 <= m <= 12
  {
    if m == 2 then (if IsLeapYear(y) then 29 else 28)
    else if m == 4 || m == 6 || m == 9 || m == 11 then 30
    else 31
  }

  /** The range checks of Python's `datetime` constructor (MINYEAR 1, MAXYEAR 9999). */
  predicate Valid(dt: DateTime)
  {
    && 1 <= dt.year <= 9999
    && 1 <= dt.month <= 12
    && 1 <= dt.day <= DaysInMonth(dt.year, dt.month)
    && dt.hour <= 23 && dt.minute <= 59 && dt.second <= 59
  }

  /** A field followed by its separator and the rest of the text. */
  function Field(f: string, sep: char, rest: string): string { f + [sep] + rest }

  /** `YYYY-MM-DD<sep>HH:MM:SS`, every field zero padded. */
  function DateText(dt: DateTime, sep: char): string
  {
    Field(Padded(dt.year, 4), '-', Field(Padded(dt.month, 2), '-', Field(Padded(dt.day, 2), sep,
      Field(Padded(dt.hour, 2), ':', Field(Padded(dt.minute, 2), ':', Padded(dt.second, 2))))))
  }

  /** `dt.isoformat()` for a date-time without microseconds or time zone. */
  function IsoFormat(dt: DateTime): string { DateText(dt, 'T') }

  /** `str(dt)`: the ISO form with a space between date and time. */
  function StrText(dt: DateTime): string { DateText(dt, ' ') }

  // ---------------------------------------------------------------------
  // datetime.strptime(s, '%Y-%m-%dT%H:%M:%S[Z]')
  //
  // CPython compiles the format to a regular expression, matched ignoring
  // case: %Y is four digits; %m, %H, %M and %S are one or two digits in
  // range (%S up to 61); %d is one or two digits in range or a space and a
  // digit. Every field is followed by a separator that is not a digit or a
  // space, so a field is the run of digits and spaces before its separator.
  // Text left after the match is an error, and so is a date-time the
  // `datetime` constructor rejects.
  // ---------------------------------------------------------------------

  predicate IsFieldChar(c: char) { IsDigit(c) || c == ' ' }

  /** Length of the run of digits and spaces at the head of `s`. */
  function Run(s: string): (n: nat)
    ensures n <= |s|
    ensures forall i :: 0 <= i < n ==> IsFieldChar(s[i])
    ensures n < |s| ==> !IsFieldChar(s[n])
  {
    if s == [] || !IsFieldChar(s[0]) then 0 else 1 + Run(s[1..])
  }

  datatype Cut = Cut(field: string, rest: string)

  /** The field at the head of `s`, which must be followed by the literal `sep` (case ignored). */
  function TakeField(s: string, sep: char): Option<Cut>
  {
    var n := Run(s);
    if n < |s| && Lower(s[n]) == Lower(sep) then Some(Cut(s[..n], s[n + 1..])) else None
  }

  /** The seconds field, which ends the text or is followed by a single `Z` (case ignored). */
  function LastField(s: string, zulu: bool): Option<string>
  {
    var n := Run(s);
    if !zulu then (if n == |s| then Some(s) else None)
    else if n + 1 == |s| && Lower(s[n]) == 'z' then Some(s[..n])
    else None
  }

  /** One or two ASCII digits whose value lies in `lo..hi`. */
  function Number(f: string, lo: nat, hi: nat): Option<nat>
  {
    if 1 <= |f| <= 2 && AllDigits(f) && lo <= DigitsValue(f) <= hi then Some(DigitsValue(f)) else None
  }

  /** `%d` also accepts a space followed by a non-zero digit. */
  function DayNumber(f: string): Option<nat>
  {
    if |f| == 2 && f[0] == ' ' && IsDigit(f[1]) && f[1] != '0' then Some(DigitValue(f[1]))
    else Number(f, 1, 31)
  }

  function YearNumber(f: string): Option<nat>
  {
    if |f| == 4 && AllDigits(f) then Some(DigitsValue(f)) else None
  }

  /** The six field texts of a `strptime` match, before their values are checked. */
  datatype Fields = Fields(year: string, month: string, day: string, hour: string, minute: string, second: string)

  function SplitFields(s: string, zulu: bool): Option<Fields>
  {
    var y :- TakeField(s, '-');
    var mo :- TakeField(y.rest, '-');
    var d :- TakeField(mo.rest, 'T');
    var h :- TakeField(d.rest, ':');
    var mi :- TakeField(h.rest, ':');
    var sec :- LastField(mi.rest, zulu);
    Some(Fields(y.field, mo.field, d.field, h.field, mi.field, sec))
  }

  function FieldsValue(f: Fields): (r: Option<DateTime>)
    ensures r.Some? ==> Valid(r.value)
  {
    var year :- YearNumber(f.year);
    var month :- Number(f.month, 1, 12);
    var day :- DayNumber(f.day);
    var hour :- Number(f.hour, 0, 23);
    var minute :- Number(f.minute, 0, 59);
    var second :- Number(f.second, 0, 61);
    var dt := DateTime(year, month, day, hour, minute, second);
    if Valid(dt) then Some(dt) else None
  }

  /** `datetime.strptime(s, '%Y-%m-%dT%H:%M:%S')`, or the same format ending in `Z` when `zulu`. */
  function Strptime(s: string, zulu: bool): Option<DateTime>
  {
    var f :- SplitFields(s, zulu);
    FieldsValue(f)
  }

  /**
   * The load path's rewriting of a value in a column whose name contains
   * `datetime` (app.py, validate_and_prepare_records): text without `Z` is
   * parsed with the plain format, text with a `Z` with the `Z` format, and
   * either way the result is `isoformat()` followed by one `Z`.
   */
  function Normalise(s: string): Option<string>
  {
    var dt :- Strptime(s, 'Z' in s);
    Some(IsoFormat(dt) + "Z")
  }

  // ---------------------------------------------------------------------
  // datetime.fromisoformat(s), as the C implementation of Python 3.7 to
  // 3.10 reads it: `YYYY-MM-DD`, then optionally any one separator
  // character and `HH`, `HH:MM` or `HH:MM:SS`.
  // ---------------------------------------------------------------------

  function TwoDigits(s: string, at: nat): Option<nat>
  {
    if at + 2 <= |s| && AllDigits(s[at..at + 2]) then Some(DigitsValue(s[at..at + 2])) else None
  }

  /** The time part after the separator: hour, minute and second, missing ones zero. */
  function IsoTime(t: string): Option<(nat, nat, nat)>
  {
    if |t| == 2 then
      var h :- TwoDigits(t, 0);
      Some((h, 0, 0))
    else if |t| == 5 && t[2] == ':' then
      var h :- TwoDigits(t, 0);
      var m :- TwoDigits(t, 3);
      Some((h, m, 0))
    else if |t| == 8 && t[2] == ':' && t[5] == ':' then
      var h :- TwoDigits(t, 0);
      var m :- TwoDigits(t, 3);
      var sec :- TwoDigits(t, 6);
      Some((h, m, sec))
    else None
  }

  function FromIsoFormat(s: string): Option<DateTime>
  {
    if |s| < 10 || !(AllDigits(s[..4]) && s[4] == '-' && s[7] == '-') then None
    else
      var month :- TwoDigits(s, 5);
      var day :- TwoDigits(s, 8);
      var time :- if |s| == 10 then Some((0, 0, 0)) else IsoTime(s[11..]);
      var dt := DateTime(DigitsValue(s[..4]), month, day, time.0, time.1, time.2);
      if Valid(dt) then Some(dt) else None
  }

  // ---------------------------------------------------------------------
  // Properties
  // ---------------------------------------------------------------------

  lemma {:induction false} RunOf(f: string, tail: string)
    requires forall i :: 0 <= i < |f| ==> IsFieldChar(f[i])
    requires tail == [] || !IsFieldChar(tail[0])
    ensures Run(f + tail) == |f|
  {
    if f == [] {
      assert f + tail == tail;
    } else {
      assert (f + tail)[1..] == f[1..] + tail;
      RunOf(f[1..], tail);
    }
  }

  lemma TakeFieldOf(f: string, sep: char, rest: string)
    requires AllDigits(f) && !IsFieldChar(sep)
    ensures TakeField(Field(f, sep, rest), sep) == Some(Cut(f, rest))
  {
    var s := Field(f, sep, rest);
    assert s == f + ([sep] + rest);
    RunOf(f, [sep] + rest);
    assert s[..|f|] == f;
    assert s[|f| + 1..] == rest;
  }

  lemma FieldAppend(f: string, sep: char, rest: string, tail: string)
    ensures Field(f, sep, rest) + tail == Field(f, sep, rest + tail)
  {
  }

  lemma NumberOf(n: nat, lo: nat, hi: nat)
    requires lo <= n <= hi && n < 100
    ensures Number(FixedDigits(n, 2), lo, hi) == Some(n)
  {
  }

  /** Fixed-width digits never hold a `Z`. */
  lemma NoZInDigits(s: string)
    requires AllDigits(s)
    ensures 'Z' !in s
  {
  }

  /** The ISO text of a valid date-time holds no `Z`. */
  lemma NoZInIsoFormat(dt: DateTime)
    requires Valid(dt)
    ensures 'Z' !in IsoFormat(dt)
  {
    NoZInDateText(dt, 'T');
  }

  /** Written with any separator but `Z`, a date-time holds no `Z`. */
  lemma NoZInDateText(dt: DateTime, sep: char)
    requires sep != 'Z'
    ensures 'Z' !in DateText(dt, sep)
  {
    var ys, mos, ds := Padded(dt.year, 4), Padded(dt.month, 2), Padded(dt.day, 2);
    var hs, mis, ss := Padded(dt.hour, 2), Padded(dt.minute, 2), Padded(dt.second, 2);
    NoZInDigits(ys); NoZInDigits(mos); NoZInDigits(ds); NoZInDigits(hs); NoZInDigits(mis); NoZInDigits(ss);
    var t4 := Field(mis, ':', ss);
    NoZInField(mis, ':', ss);
    var t3 := Field(hs, ':', t4);
    NoZInField(hs, ':', t4);
    var t2 := Field(ds, sep, t3);
    NoZInField(ds, sep, t3);
    var t1 := Field(mos, '-', t2);
    NoZInField(mos, '-', t2);
    NoZInField(ys, '-', t1);
  }

  lemma NoZInField(f: string, sep: char, rest: string)
    requires 'Z' !in f && sep != 'Z' && 'Z' !in rest
    ensures 'Z' !in Field(f, sep, rest)
  {
  }

  /** Each field of a valid date-time is within its width, so it is written zero padded to exactly that width. */
  lemma PaddedFields(dt: DateTime)
    requires Valid(dt)
    ensures dt.year < Pow10(4) && Padded(dt.year, 4) == FixedDigits(dt.year, 4)
    ensures dt.month < Pow10(2) && Padded(dt.month, 2) == FixedDigits(dt.month, 2)
    ensures dt.day < Pow10(2) && Padded(dt.day, 2) == FixedDigits(dt.day, 2)
    ensures dt.hour < Pow10(2) && Padded(dt.hour, 2) == FixedDigits(dt.hour, 2)
    ensures dt.minute < Pow10(2) && Padded(dt.minute, 2) == FixedDigits(dt.minute, 2)
    ensures dt.second < Pow10(2) && Padded(dt.second, 2) == FixedDigits(dt.second, 2)
  {
    assert Pow10(2) == 100;
    assert Pow10(4) == 10000;
    assert dt.day <= 31;
  }

  /** Text appended after a written date-time lands after its seconds field. */
  lemma AppendAfterSeconds(ys: string, mos: string, ds: string, hs: string, mis: string, ss: string, sep: char, z: string)
    ensures Field(ys, '-', Field(mos, '-', Field(ds, sep, Field(hs, ':', Field(mis, ':', ss))))) + z
         == Field(ys, '-', Field(mos, '-', Field(ds, sep, Field(hs, ':', Field(mis, ':', ss + z)))))
  {
    FieldAppend(mis, ':', ss, z);
    FieldAppend(hs, ':', Field(mis, ':', ss), z);
    FieldAppend(ds, sep, Field(hs, ':', Field(mis, ':', ss)), z);
    FieldAppend(mos, '-', Field(ds, sep, Field(hs, ':', Field(mis, ':', ss))), z);
    FieldAppend(ys, '-', Field(mos, '-', Field(ds, sep, Field(hs, ':', Field(mis, ':', ss)))), z);
  }

  /** The seconds field is read up to the end of the text, or up to its closing `Z`. */
  lemma LastFieldOf(ss: string, zulu: bool)
    requires AllDigits(ss)
    ensures LastField(ss + (if zulu then "Z" else ""), zulu) == Some(ss)
  {
    if zulu {
      RunOf(ss, "Z");
      assert (ss + "Z")[..|ss|] == ss;
      assert Lower('Z') == 'z';
    } else {
      assert ss + "" == ss;
      RunOf(ss, []);
    }
  }

  /** `strptime` cuts a text made of digit fields and the format's separators back into those fields. */
  lemma SplitOfPieces(ys: string, mos: string, ds: string, hs: string, mis: string, ss: string, zulu: bool)
    requires AllDigits(ys) && AllDigits(mos) && AllDigits(ds) && AllDigits(hs) && AllDigits(mis) && AllDigits(ss)
    ensures SplitFields(Field(ys, '-', Field(mos, '-', Field(ds, 'T', Field(hs, ':', Field(mis, ':', ss)))))
                        + (if zulu then "Z" else ""), zulu)
         == Some(Fields(ys, mos, ds, hs, mis, ss))
  {
    var z := if zulu then "Z" else "";
    var r5 := ss + z;
    var r4 := Field(mis, ':', r5);
    var r3 := Field(hs, ':', r4);
    var r2 := Field(ds, 'T', r3);
    var r1 := Field(mos, '-', r2);
    AppendAfterSeconds(ys, mos, ds, hs, mis, ss, 'T', z);
    TakeFieldOf(ys, '-', r1);
    TakeFieldOf(mos, '-', r2);
    TakeFieldOf(ds, 'T', r3);
    TakeFieldOf(hs, ':', r4);
    TakeFieldOf(mis, ':', r5);
    LastFieldOf(ss, zulu);
    assert SplitFields(Field(ys, '-', r1), zulu) == Some(Fields(ys, mos, ds, hs, mis, ss));
  }

  /** `strptime` cuts the pieces of a written date-time back out. */
  lemma SplitIsoFormat(dt: DateTime, zulu: bool)
    requires Valid(dt)
    ensures SplitFields(IsoFormat(dt) + (if zulu then "Z" else ""), zulu)
         == Some(Fields(FixedDigits(dt.year, 4), FixedDigits(dt.month, 2), FixedDigits(dt.day, 2),
                        FixedDigits(dt.hour, 2), FixedDigits(dt.minute, 2), FixedDigits(dt.second, 2)))
  {
    PaddedFields(dt);
    SplitOfPieces(FixedDigits(dt.year, 4), FixedDigits(dt.month, 2), FixedDigits(dt.day, 2),
                  FixedDigits(dt.hour, 2), FixedDigits(dt.minute, 2), FixedDigits(dt.second, 2), zulu);
  }

  /**
   * `strptime` reads back what `isoformat` writes, with and without the
   * trailing `Z`: the two load formats accept every valid date-time in its
   * ISO form.
   */
  lemma StrptimeReadsIsoFormat(dt: DateTime, zulu: bool)
    requires Valid(dt)
    ensures Strptime(IsoFormat(dt) + (if zulu then "Z" else ""), zulu) == Some(dt)
  {
    SplitIsoFormat(dt, zulu);
    FieldsValueOfFixed(dt);
  }

  /** The fixed-width fields of a valid date-time are read back as that date-time. */
  lemma FieldsValueOfFixed(dt: DateTime)
    requires Valid(dt)
    ensures FieldsValue(Fields(FixedDigits(dt.year, 4), FixedDigits(dt.month, 2), FixedDigits(dt.day, 2),
                        FixedDigits(dt.hour, 2), FixedDigits(dt.minute, 2), FixedDigits(dt.second, 2))) == Some(dt)
  {
    PaddedFields(dt);
    NumberOf(dt.month, 1, 12);
    NumberOf(dt.day, 1, 31);
    NumberOf(dt.hour, 0, 23);
    NumberOf(dt.minute, 0, 59);
    NumberOf(dt.second, 0, 61);
    var ds := FixedDigits(dt.day, 2);
    assert ds[0] != ' ';
  }

  /** What the load path makes of an ISO date-time: the same text with one `Z` appended. */
  lemma NormaliseIsoFormat(dt: DateTime)
    requires Valid(dt)
    ensures Normalise(IsoFormat(dt)) == Some(IsoFormat(dt) + "Z")
    ensures Normalise(IsoFormat(dt) + "Z") == Some(IsoFormat(dt) + "Z")
  {
    NoZInIsoFormat(dt);
    StrptimeReadsIsoFormat(dt, false);
    assert IsoFormat(dt) + "" == IsoFormat(dt);
    StrptimeReadsIsoFormat(dt, true);
  }

  lemma DateTextLength(dt: DateTime, sep: char)
    requires Valid(dt)
    ensures |DateText(dt, sep)| == 19
  {
    PaddedFields(dt);
    var t4 := Field(Padded(dt.minute, 2), ':', Padded(dt.second, 2));
    var t3 := Field(Padded(dt.hour, 2), ':', t4);
    var t2 := Field(Padded(dt.day, 2), sep, t3);
    var t1 := Field(Padded(dt.month, 2), '-', t2);
    assert |t4| == 5 && |t3| == 8 && |t2| == 11 && |t1| == 14;
  }

  /**
   * Every text the load path accepts becomes the zero-padded ISO form of a
   * valid date-time followed by exactly one `Z`, and normalising that again
   * changes nothing.
   */
  lemma NormaliseIsIdempotent(s: string)
    requires Normalise(s).Some?
    ensures var r := Normalise(s).value;
      && |r| == 20 && r[19] == 'Z' && 'Z' !in r[..19]
      && Normalise(r) == Some(r)
  {
    var dt := Strptime(s, 'Z' in s).value;
    assert Normalise(s) == Some(IsoFormat(dt) + "Z");
    var r := IsoFormat(dt) + "Z";
    DateTextLength(dt, 'T');
    NoZInIsoFormat(dt);
    NormaliseIsoFormat(dt);
    assert r[..19] == IsoFormat(dt);
  }

  lemma ExampleShape(s: string)
    requires s == "2024-01-05T10:00:00"
    ensures s == Field("2024", '-', Field("01", '-', Field("05", 'T', Field("10", ':', Field("00", ':', "00")))))
  {
  }

  lemma UnpaddedShape(s: string)
    requires s == "2024-1-5T9:0:0"
    ensures s == Field("2024", '-', Field("1", '-', Field("5", 'T', Field("9", ':', Field("0", ':', "0"))))) + ""
  {
  }

  lemma PaddedShape(s: string)
    requires s == "2024-01-05T09:00:00Z"
    ensures s == Field("2024", '-', Field("01", '-', Field("05", 'T', Field("09", ':', Field("00", ':', "00"))))) + "Z"
  {
  }

  lemma LeapDayShape(s: string)
    requires s == "2023-02-29T00:00:00"
    ensures s == Field("2023", '-', Field("02", '-', Field("29", 'T', Field("00", ':', Field("00", ':', "00"))))) + ""
  {
  }

  /** `2024-01-05T10:00:00` and `2024-01-05T10:00:00Z` both normalise to `2024-01-05T10:00:00Z`. */
  lemma NormaliseExamples(s: string)
    requires s == "2024-01-05T10:00:00"
    ensures Normalise(s) == Some(s + "Z")
    ensures Normalise(s + "Z") == Some(s + "Z")
  {
    var dt := DateTime(2024, 1, 5, 10, 0, 0);
    ExampleIsoFormat(dt, s);
    NormaliseIsoFormat(dt);
  }

  lemma ExampleIsoFormat(dt: DateTime, s: string)
    requires dt == DateTime(2024, 1, 5, 10, 0, 0) && s == "2024-01-05T10:00:00"
    ensures IsoFormat(dt) == s
  {
    DigitsValueOfFour("2024");
    DigitsValueOfTwo("01"); DigitsValueOfTwo("05"); DigitsValueOfTwo("10"); DigitsValueOfTwo("00");
    IsoFormatOfDigits(dt, "2024", "01", "05", "10", "00", "00");
    ExampleShape(s);
  }

  /** Digit strings of the right widths whose values are the fields of `dt` are how `dt` is written. */
  lemma IsoFormatOfDigits(dt: DateTime, ys: string, mos: string, ds: string, hs: string, mis: string, ss: string)
    requires AllDigits(ys) && |ys| == 4 && DigitsValue(ys) == dt.year
    requires AllDigits(mos) && |mos| == 2 && DigitsValue(mos) == dt.month
    requires AllDigits(ds) && |ds| == 2 && DigitsValue(ds) == dt.day
    requires AllDigits(hs) && |hs| == 2 && DigitsValue(hs) == dt.hour
    requires AllDigits(mis) && |mis| == 2 && DigitsValue(mis) == dt.minute
    requires AllDigits(ss) && |ss| == 2 && DigitsValue(ss) == dt.second
    ensures IsoFormat(dt) == Field(ys, '-', Field(mos, '-', Field(ds, 'T', Field(hs, ':', Field(mis, ':', ss)))))
  {
    PaddedOfText(ys, dt.year);
    PaddedOfText(mos, dt.month);
    PaddedOfText(ds, dt.day);
    PaddedOfText(hs, dt.hour);
    PaddedOfText(mis, dt.minute);
    PaddedOfText(ss, dt.second);
  }

  /** Fields written without zero padding are accepted and come out padded. */
  lemma NormalisePads(s: string, r: string)
    requires s == "2024-1-5T9:0:0" && r == "2024-01-05T09:00:00Z"
    ensures Normalise(s) == Some(r)
  {
    var dt := DateTime(2024, 1, 5, 9, 0, 0);
    UnpaddedShape(s);
    UnpaddedFields(dt);
    StrptimeOfPieces(s, "2024", "1", "5", "9", "0", "0", false);
    PaddedText(dt, r);
  }

  lemma PaddedText(dt: DateTime, r: string)
    requires dt == DateTime(2024, 1, 5, 9, 0, 0) && r == "2024-01-05T09:00:00Z"
    ensures IsoFormat(dt) + "Z" == r
  {
    DigitsValueOfFour("2024");
    DigitsValueOfTwo("01"); DigitsValueOfTwo("05"); DigitsValueOfTwo("09"); DigitsValueOfTwo("00");
    IsoFormatOfDigits(dt, "2024", "01", "05", "09", "00", "00");
    PaddedShape(r);
  }

  lemma UnpaddedFields(dt: DateTime)
    requires dt == DateTime(2024, 1, 5, 9, 0, 0)
    ensures AllDigits("2024") && AllDigits("1") && AllDigits("5") && AllDigits("9") && AllDigits("0")
    ensures FieldsValue(Fields("2024", "1", "5", "9", "0", "0")) == Some(dt)
  {
    DigitsValueOfFour("2024");
  }

  /** A date the calendar does not have is rejected: 2023 is not a leap year. */
  lemma NormaliseRejectsImpossibleDate(s: string)
    requires s == "2023-02-29T00:00:00"
    ensures Normalise(s) == None
  {
    LeapDayShape(s);
    LeapDayFields();
    StrptimeOfPieces(s, "2023", "02", "29", "00", "00", "00", false);
  }

  lemma LeapDayFields()
    ensures AllDigits("2023") && AllDigits("02") && AllDigits("29") && AllDigits("00")
    ensures FieldsValue(Fields("2023", "02", "29", "00", "00", "00")) == None
  {
    DigitsValueOfTwo("02");
    DigitsValueOfTwo("29");
  }

  /** `strptime` of a text made of digit fields is decided by the values of those fields. */
  lemma StrptimeOfPieces(s: string, ys: string, mos: string, ds: string, hs: string, mis: string, ss: string, zulu: bool)
    requires AllDigits(ys) && AllDigits(mos) && AllDigits(ds) && AllDigits(hs) && AllDigits(mis) && AllDigits(ss)
    requires s == Field(ys, '-', Field(mos, '-', Field(ds, 'T', Field(hs, ':', Field(mis, ':', ss))))) + (if zulu then "Z" else "")
    ensures Strptime(s, zulu) == FieldsValue(Fields(ys, mos, ds, hs, mis, ss))
    ensures 'Z' in s <==> zulu
  {
    SplitOfPieces(ys, mos, ds, hs, mis, ss, zulu);
    var t := Field(ys, '-', Field(mos, '-', Field(ds, 'T', Field(hs, ':', Field(mis, ':', ss)))));
    if zulu {
      assert s[|s| - 1] == 'Z';
    } else {
      NoZInPieces(ys, mos, ds, hs, mis, ss);
      assert s == t + "" == t;
    }
  }

  lemma NoZInPieces(ys: string, mos: string, ds: string, hs: string, mis: string, ss: string)
    requires AllDigits(ys) && AllDigits(mos) && AllDigits(ds) && AllDigits(hs) && AllDigits(mis) && AllDigits(ss)
    ensures 'Z' !in Field(ys, '-', Field(mos, '-', Field(ds, 'T', Field(hs, ':', Field(mis, ':', ss)))))
  {
    NoZInDigits(ys); NoZInDigits(mos); NoZInDigits(ds); NoZInDigits(hs); NoZInDigits(mis); NoZInDigits(ss);
  }

  /** `fromisoformat` reads back `str(dt)` and `isoformat()`: any separator is accepted. */
  lemma FromIsoFormatReadsDateText(dt: DateTime, sep: char)
    requires Valid(dt)
    ensures FromIsoFormat(DateText(dt, sep)) == Some(dt)
  {
    PaddedFields(dt);
    FromIsoFormatOfDigits(dt, sep, FixedDigits(dt.year, 4), FixedDigits(dt.month, 2), FixedDigits(dt.day, 2),
                          FixedDigits(dt.hour, 2), FixedDigits(dt.minute, 2), FixedDigits(dt.second, 2));
  }

  lemma FromIsoFormatOfDigits(dt: DateTime, sep: char, ys: string, mos: string, ds: string, hs: string, mis: string, ss: string)
    requires Valid(dt)
    requires AllDigits(ys) && |ys| == 4 && DigitsValue(ys) == dt.year
    requires AllDigits(mos) && |mos| == 2 && DigitsValue(mos) == dt.month
    requires AllDigits(ds) && |ds| == 2 && DigitsValue(ds) == dt.day
    requires AllDigits(hs) && |hs| == 2 && DigitsValue(hs) == dt.hour
    requires AllDigits(mis) && |mis| == 2 && DigitsValue(mis) == dt.minute
    requires AllDigits(ss) && |ss| == 2 && DigitsValue(ss) == dt.second
    ensures FromIsoFormat(Field(ys, '-', Field(mos, '-', Field(ds, sep, Field(hs, ':', Field(mis, ':', ss)))))) == Some(dt)
  {
    var r3 := Field(hs, ':', Field(mis, ':', ss));
    var r2 := Field(ds, sep, r3);
    var r1 := Field(mos, '-', r2);
    var s := Field(ys, '-', r1);
    assert s[..4] == ys && s[4] == '-' && s[5..] == r1;
    TwoDigitsField(s, 5, mos, '-', r2);
    TwoDigitsField(s, 8, ds, sep, r3);
    assert s[11..] == r3;
    IsoTimeOfPieces(hs, mis, ss);
    FromIsoFormatOfParts(s, dt.year, dt.month, dt.day, (dt.hour, dt.minute, dt.second));
  }

  lemma FromIsoFormatOfParts(s: string, year: nat, month: nat, day: nat, time: (nat, nat, nat))
    requires |s| > 10 && AllDigits(s[..4]) && DigitsValue(s[..4]) == year && s[4] == '-' && s[7] == '-'
    requires TwoDigits(s, 5) == Some(month) && TwoDigits(s, 8) == Some(day) && IsoTime(s[11..]) == Some(time)
    ensures var dt := DateTime(year, month, day, time.0, time.1, time.2);
      FromIsoFormat(s) == if Valid(dt) then Some(dt) else None
  {
  }

  lemma IsoTimeOfPieces(hs: string, mis: string, ss: string)
    requires AllDigits(hs) && |hs| == 2 && AllDigits(mis) && |mis| == 2 && AllDigits(ss) && |ss| == 2
    ensures IsoTime(Field(hs, ':', Field(mis, ':', ss))) == Some((DigitsValue(hs), DigitsValue(mis), DigitsValue(ss)))
  {
    var r := Field(mis, ':', ss);
    var t := Field(hs, ':', r);
    assert |t| == 8 && t[0..] == t;
    TwoDigitsField(t, 0, hs, ':', r);
    TwoDigitsField(t, 3, mis, ':', ss);
    assert t[6] == ss[0] && t[7] == ss[1];
    TwoDigitsOf(t, 6, ss);
  }

  lemma TwoDigitsField(s: string, at: nat, f: string, sep: char, rest: string)
    requires AllDigits(f) && |f| == 2 && at <= |s| && s[at..] == Field(f, sep, rest)
    ensures TwoDigits(s, at) == Some(DigitsValue(f)) && s[at + 2] == sep && s[at + 3..] == rest
  {
    assert s[at..at + 2] == s[at..][..2] == f;
    assert s[at + 3..] == s[at..][3..];
  }

  lemma TwoDigitsOf(s: string, at: nat, f: string)
    requires AllDigits(f) && |f| == 2 && at + 2 <= |s| && s[at] == f[0] && s[at + 1] == f[1]
    ensures TwoDigits(s, at) == Some(DigitsValue(f))
  {
    assert s[at..at + 2] == f;
  }

  /** The restore path strips every `Z` and reads the rest with `fromisoformat`. */
  lemma {:induction false} RestoreReadsNormalised(dt: DateTime)
    requires Valid(dt)
    ensures FromIsoFormat(Remove(IsoFormat(dt) + "Z", 'Z')) == Some(dt)
  {
    RemoveAppend(IsoFormat(dt), "Z", 'Z');
    NoZInIsoFormat(dt);
    RemoveAbsent(IsoFormat(dt), 'Z');
    assert Remove("Z", 'Z') == "";
    assert IsoFormat(dt) + "" == IsoFormat(dt);
    FromIsoFormatReadsDateText(dt, 'T');
  }

  /**
   * Whatever the load path stores in a date-time column, the restore path
   * reads back as the date-time the load path parsed.
   */
  lemma LoadThenRestoreAgree(s: string)
    requires Normalise(s).Some?
    ensures FromIsoFormat(Remove(Normalise(s).value, 'Z')) == Strptime(s, 'Z' in s)
  {
    var dt := Strptime(s, 'Z' in s).value;
    assert Normalise(s) == Some(IsoFormat(dt) + "Z");
    RestoreReadsNormalised(dt);
  }
}
