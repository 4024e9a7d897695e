/** Conversion of the exported JSON readings into the two-column CSV files the
    correction scripts read: each reading becomes one row holding the
    wall-clock hour and minute of its timestamp and its unchanged body. */
module CsvConversion {
  import opened Series

  predicate IsDigit(c: char)
  {
    '0' <= c <= '9'
  }

  function DigitValue(c: char): nat
    requires IsDigit(c)
  {
    (c - '0') as nat
  }

  function DigitChar(d: nat): (c: char)
    requires d < 10
    ensures IsDigit(c) && DigitValue(c) == d
  {
    ('0' as int + d) as char
  }

  /** Value of a string of decimal digits. */
  function DigitsValue(t: string): nat
    requires forall i :: 0 <= i < |t| ==> IsDigit(t[i])
  {
    if |t| == 0 then 0 else DigitsValue(t[..|t| - 1]) * 10 + DigitValue(t[|t| - 1])
  }

  predicate AllDigits(t: string)
  {
    forall i :: 0 <= i < |t| ==> IsDigit(t[i])
  }

  /** Wall-clock hour and minute. */
  datatype Clock = Clock(hour: nat, minute: nat)

  predicate ValidClock(c: Clock)
  {
    c.hour < 24 && c.minute < 60
  }

  /** The fields of an ISO-8601 timestamp as the date parser returns them. */
  datatype Stamp = Stamp(year: nat, month: nat, day: nat, hour: nat, minute: nat, second: nat)

  predicate IsLeapYear(y: nat)
  {
    (y % 4 == 0 && y % 100 != 0) || y % 400 == 0
  }

  function DaysInMonth(y: nat, m: nat): nat
    requires 1 <= m <= 12
  {
    if m == 2 then (if IsLeapYear(y) then 29 else 28)
    else if m == 4 || m == 6 || m == 9 || m == 11 then 30
    else 31
  }

  /** The trailing `:SS` with an optional fraction of three or six digits;
      the empty string stands for zero seconds. */
  function ParseSeconds(t: string): (r: Option<nat>)
    ensures r.Some? ==> r.value < 60
  {
    if |t| == 0 then Some(0)
    else if |t| >= 3 && t[0] == ':' && AllDigits(t[1..3])
         && (|t| == 3 || (t[3] == '.' && (|t| == 7 || |t| == 10) && AllDigits(t[4..])))
    then
      var sec := DigitsValue(t[1..3]);
      if sec < 60 then Some(sec) else None
    else None
  }

  /** The ISO parser on the form `YYYY-MM-DD?HH:MM[:SS[.fff]]`, where `?` is
      any single separator character; dates and times out of range are
      refused. */
  function ParseIsoStamp(t: string): (r: Option<Stamp>)
    ensures r.Some? ==> ValidClock(Clock(r.value.hour, r.value.minute))
    ensures r.Some? ==> 1 <= r.value.month <= 12 && 1 <= r.value.day <= DaysInMonth(r.value.year, r.value.month)
    ensures r.Some? ==> ValidStamp(r.value)
  {
    if |t| < 16 then None
    else if !(AllDigits(t[0..4]) && t[4] == '-' && AllDigits(t[5..7]) && t[7] == '-'
              && AllDigits(t[8..10]) && AllDigits(t[11..13]) && t[13] == ':' && AllDigits(t[14..16]))
    then None
    else
      var year := DigitsValue(t[0..4]);
      FourDigitsValue(t[0..4]);
      var month := DigitsValue(t[5..7]);
      var day := DigitsValue(t[8..10]);
      var hour := DigitsValue(t[11..13]);
      var minute := DigitsValue(t[14..16]);
      var sec := ParseSeconds(t[16..]);
      if year < 1 || month < 1 || month > 12 || day < 1 || day > DaysInMonth(year, month)
         || hour >= 24 || minute >= 60 || sec.None?
      then None
      else Some(Stamp(year, month, day, hour, minute, sec.value))
  }

  /** The date string with its last character (the `Z` zone marker) cut off;
      an empty string stays empty. */
  function DropLastChar(t: string): (r: string)
    ensures |r| == if |t| == 0 then 0 else |t| - 1
    ensures |t| > 0 ==> r + [t[|t| - 1]] == t
  {
    if |t| == 0 then [] else t[..|t| - 1]
  }

  /** A date with its zone marker appended comes back exactly. */
  lemma DropLastCharUndoesAppend(d: string, c: char)
    ensures DropLastChar(d + [c]) == d
  {
    assert (d + [c])[..|d|] == d;
  }

  /** Decimal digits of `n`, without leading zeros. */
  function NatText(n: nat): (t: string)
    ensures |t| >= 1 && AllDigits(t)
    ensures DigitsValue(t) == n
    ensures n < 10 <==> |t| == 1
    ensures 10 <= n < 100 <==> |t| == 2
    ensures |t| == 2 ==> t[0] != '0'
  {
    if n < 10 then [DigitChar(n)]
    else
      var t := NatText(n / 10) + [DigitChar(n % 10)];
      assert t[..|t| - 1] == NatText(n / 10);
      t
  }

  /** `n` on exactly two digits, zero-padded. */
  function TwoDigits(n: nat): (t: string)
    requires n < 100
    ensures |t| == 2 && AllDigits(t) && DigitsValue(t) == n
    ensures t[0] == DigitChar(n / 10)
  {
    var t := [DigitChar(n / 10), DigitChar(n % 10)];
    assert t[..1] == [DigitChar(n / 10)];
    assert t[..1][..0] == [];
    assert DigitsValue(t[..1]) == n / 10;
    t
  }

  /** `n` on exactly four digits, zero-padded. */
  function FourDigits(n: nat): (t: string)
    requires n < 10000
    ensures |t| == 4 && AllDigits(t) && DigitsValue(t) == n
  {
    var hi := TwoDigits(n / 100);
    var lo := TwoDigits(n % 100);
    var t := hi + lo;
    assert t[0] == hi[0] && t[1] == hi[1] && t[2] == lo[0] && t[3] == lo[1];
    FourDigitsValue(t);
    TwoDigitsValue(hi);
    TwoDigitsValue(lo);
    var a, b := DigitValue(hi[0]) * 10 + DigitValue(hi[1]), DigitValue(lo[0]) * 10 + DigitValue(lo[1]);
    assert a == n / 100 && b == n % 100;
    assert ((DigitValue(t[0]) * 10 + DigitValue(t[1])) * 10 + DigitValue(t[2])) * 10 + DigitValue(t[3])
        == a * 100 + b;
    t
  }

  /** A stamp that names a real calendar instant of years 1 to 9999. */
  predicate ValidStamp(st: Stamp)
  {
    1 <= st.year <= 9999 && 1 <= st.month <= 12 && 1 <= st.day <= DaysInMonth(st.year, st.month)
    && st.hour < 24 && st.minute < 60 && st.second < 60
  }

  /** The timestamp text `YYYY-MM-DDTHH:MM:SS` of a stamp, every field
      zero-padded, as the export writes it before its zone marker. */
  function IsoText(st: Stamp): (t: string)
    requires ValidStamp(st)
    ensures |t| == 19
  {
    FourDigits(st.year) + "-" + TwoDigits(st.month) + "-" + TwoDigits(st.day) + "T"
      + TwoDigits(st.hour) + ":" + TwoDigits(st.minute) + ":" + TwoDigits(st.second)
  }

  /** The CSV time text: the hour without padding, a colon, and the minute
      on two digits. */
  function ClockText(c: Clock): (t: string)
    requires ValidClock(c)
    ensures |t| == (if c.hour < 10 then 4 else 5)
    ensures t[|t| - 3] == ':'
  {
    NatText(c.hour) + ":" + TwoDigits(c.minute)
  }

  /** The `%H` directive: `2[0-3]`, `[0-1]` followed by a digit, or one digit. */
  predicate IsTwoCharHour(a: char, b: char)
  {
    (a == '2' && '0' <= b <= '3') || ((a == '0' || a == '1') && IsDigit(b))
  }

  /** The `%M` directive on the rest of the text: `[0-5]` followed by a
      digit, or one digit, and then the text must end. */
  function ParseMinuteText(t: string): Option<nat>
  {
    if |t| == 2 && '0' <= t[0] <= '5' && IsDigit(t[1]) then Some(DigitValue(t[0]) * 10 + DigitValue(t[1]))
    else if |t| == 1 && IsDigit(t[0]) then Some(DigitValue(t[0]))
    else None
  }

  /** The `%H:%M` parser the level correction applies to the time column. */
  function ParseClockText(t: string): (r: Option<Clock>)
    ensures r.Some? ==> ValidClock(r.value)
  {
    if |t| >= 2 && IsDigit(t[0]) && t[1] == ':' then
      match ParseMinuteText(t[2..])
      case Some(m) => Some(Clock(DigitValue(t[0]), m))
      case None => None
    else if |t| >= 3 && IsTwoCharHour(t[0], t[1]) && t[2] == ':' then
      match ParseMinuteText(t[3..])
      case Some(m) => Some(Clock(DigitValue(t[0]) * 10 + DigitValue(t[1]), m))
      case None => None
    else None
  }

  /** The time column written by the conversion is read back by the level
      correction as the same hour and minute. */
  lemma ClockTextRoundTrip(c: Clock)
    requires ValidClock(c)
    ensures ParseClockText(ClockText(c)) == Some(c)
  {
    var t := ClockText(c);
    var h := NatText(c.hour);
    var m := TwoDigits(c.minute);
    assert t == h + ":" + m;
    if c.hour < 10 {
      assert t[0] == h[0] && t[1] == ':' && t[2..] == m;
      assert DigitsValue(h) == DigitValue(h[0]) by {
        assert h[..0] == [];
      }
    } else {
      assert t[0] == h[0] && t[1] == h[1] && t[2] == ':' && t[3..] == m;
      assert h[..1] == [h[0]];
      assert [h[0]][..0] == [];
      assert DigitsValue(h) == DigitValue(h[0]) * 10 + DigitValue(h[1]);
      assert c.hour < 24;
    }
    assert [m[0]][..0] == [];
    assert m[..1] == [m[0]];
    assert DigitsValue(m) == DigitValue(m[0]) * 10 + DigitValue(m[1]);
  }

  /** Distinct clock readings give distinct texts. */
  lemma ClockTextInjective(a: Clock, b: Clock)
    requires ValidClock(a) && ValidClock(b)
    requires ClockText(a) == ClockText(b)
    ensures a == b
  {
    ClockTextRoundTrip(a);
    ClockTextRoundTrip(b);
  }

  /** One element of the JSON array: the `$date` string of its `datetime`
      field and its `body`, which is copied as it is. */
  datatype JsonReading<B> = JsonReading(date: string, body: B)

  datatype CsvRow<B> = CsvRow(data: string, body: B)

  datatype CsvTable<B> = CsvTable(header: seq<string>, rows: seq<CsvRow<B>>)

  const Header: seq<string> := ["data", "body"]

  /** The clock a reading's date string parses to, if it parses. */
  function ReadingClock<B>(x: JsonReading<B>): (r: Option<Clock>)
    ensures r.Some? ==> ValidClock(r.value)
  {
    match ParseIsoStamp(DropLastChar(x.date))
    case Some(st) => Some(Clock(st.hour, st.minute))
    case None => None
  }

  predicate AllDatesParse<B>(items: seq<JsonReading<B>>)
  {
    forall i :: 0 <= i < |items| ==> ReadingClock(items[i]).Some?
  }

  /** The rows for `items`, one per reading in input order; the first date
      the parser refuses stops the conversion. */
  function Rows<B>(items: seq<JsonReading<B>>): (r: Result<seq<CsvRow<B>>>)
    ensures r.Ok? <==> AllDatesParse(items)
    ensures r.Err? ==> r.error == BadTimestamp
    ensures r.Ok? ==> |r.value| == |items|
  {
    if |items| == 0 then Ok([])
    else
      match ReadingClock(items[0])
      case None => Err(BadTimestamp)
      case Some(c) =>
        var rest := Rows(items[1..]);
        AllDatesParseCons(items);
        if rest.Err? then Err(BadTimestamp)
        else Ok([CsvRow(ClockText(c), items[0].body)] + rest.value)
  }

  lemma AllDatesParseCons<B>(items: seq<JsonReading<B>>)
    requires |items| > 0
    ensures AllDatesParse(items) <==> ReadingClock(items[0]).Some? && AllDatesParse(items[1..])
  {
    assert forall i :: 0 < i < |items| ==> items[i] == items[1..][i - 1];
  }

  /** Reading a converted file back: row `i` carries the body of reading `i`
      unchanged, its time column is the unpadded `H:MM` text of reading `i`'s
      clock, and that text parses to the hour and minute of its date. */
  lemma {:induction false} RowsReadBack<B>(items: seq<JsonReading<B>>)
    requires AllDatesParse(items)
    ensures Rows(items).Ok?
    ensures forall i :: 0 <= i < |items| ==> Rows(items).value[i].body == items[i].body
    ensures forall i :: 0 <= i < |items| ==>
              ParseClockText(Rows(items).value[i].data) == ReadingClock(items[i])
    ensures forall i :: 0 <= i < |items| ==>
              Rows(items).value[i] == CsvRow(ClockText(ReadingClock(items[i]).value), items[i].body)
    decreases |items|
  {
    if |items| > 0 {
      var c := RowsHead(items);
      var rest := Rows(items[1..]).value;
      RowsReadBack(items[1..]);
      var r := Rows(items).value;
      forall i | 0 < i < |items|
        ensures r[i].body == items[i].body && ParseClockText(r[i].data) == ReadingClock(items[i])
        ensures r[i] == CsvRow(ClockText(ReadingClock(items[i]).value), items[i].body)
      {
        assert items[i] == items[1..][i - 1];
        assert r[i] == rest[i - 1];
      }
    }
  }

  /** `RowsReadBack` for any readings: nothing is claimed when a date fails. */
  lemma RowsReadBackWhenParsed<B>(items: seq<JsonReading<B>>)
    ensures Rows(items).Ok? ==> forall i :: 0 <= i < |items| ==>
              Rows(items).value[i] == CsvRow(ClockText(ReadingClock(items[i]).value), items[i].body)
  {
    if AllDatesParse(items) {
      RowsReadBack(items);
    }
  }

  /** The first row of a successful conversion, and the clock it reads back as. */
  lemma RowsHead<B>(items: seq<JsonReading<B>>) returns (c: Clock)
    requires |items| > 0 && AllDatesParse(items)
    ensures ReadingClock(items[0]) == Some(c)
    ensures Rows(items[1..]).Ok?
    ensures Rows(items).value == [CsvRow(ClockText(c), items[0].body)] + Rows(items[1..]).value
    ensures ParseClockText(ClockText(c)) == Some(c)
  {
    c := ReadingClock(items[0]).value;
    ClockTextRoundTrip(c);
  }

  /** The CSV file for a JSON array: the `data,body` header and then the rows. */
  function JsonToCsv<B>(items: seq<JsonReading<B>>): (r: Result<CsvTable<B>>)
    ensures r.Ok? <==> AllDatesParse(items)
    ensures r.Err? ==> r.error == BadTimestamp
    ensures r.Ok? ==> r.value.header == ["data", "body"] && |r.value.rows| == |items|
    ensures r.Ok? ==> forall i :: 0 <= i < |items| ==>
              r.value.rows[i] == CsvRow(ClockText(ReadingClock(items[i]).value), items[i].body)
  {
    RowsReadBackWhenParsed(items);
    match Rows(items)
    case Ok(rows) => Ok(CsvTable(Header, rows))
    case Err(e) => Err(e)
  }

  /** Only the hour and minute of a timestamp reach the row: the date and
      the seconds are dropped. */
  lemma RowIgnoresDateAndSeconds<B>(x: JsonReading<B>, y: JsonReading<B>)
    requires ParseIsoStamp(DropLastChar(x.date)).Some? && ParseIsoStamp(DropLastChar(y.date)).Some?
    requires ParseIsoStamp(DropLastChar(x.date)).value.hour == ParseIsoStamp(DropLastChar(y.date)).value.hour
    requires ParseIsoStamp(DropLastChar(x.date)).value.minute == ParseIsoStamp(DropLastChar(y.date)).value.minute
    requires x.body == y.body
    ensures Rows([x]) == Rows([y])
  {
    assert [x][1..] == [] && [y][1..] == [];
  }

  /** A two-digit field read as a number: tens, then units. */
  lemma TwoDigitsValue(t: string)
    requires |t| == 2 && AllDigits(t)
    ensures DigitsValue(t) == DigitValue(t[0]) * 10 + DigitValue(t[1])
  {
    var p := t[..1];
    assert p[..0] == [] && p[0] == t[0];
    assert DigitsValue(p) == DigitValue(t[0]);
    assert DigitsValue(t) == DigitsValue(p) * 10 + DigitValue(t[1]);
  }

  /** A four-digit year read as a number. */
  lemma FourDigitsValue(t: string)
    requires |t| == 4 && AllDigits(t)
    ensures DigitsValue(t)
         == ((DigitValue(t[0]) * 10 + DigitValue(t[1])) * 10 + DigitValue(t[2])) * 10 + DigitValue(t[3])
  {
    var p := t[..3];
    assert DigitsValue(t) == DigitsValue(p) * 10 + DigitValue(t[3]);
    var q := p[..2];
    assert q == t[..2] && p[2] == t[2];
    assert DigitsValue(p) == DigitsValue(q) * 10 + DigitValue(t[2]);
    TwoDigitsValue(q);
  }

  /** Two zero-padded digits after a colon are read back as the seconds. */
  lemma SecondsRoundTrip(sec: nat)
    requires sec < 60
    ensures ParseSeconds(":" + TwoDigits(sec)) == Some(sec)
  {
    var t := ":" + TwoDigits(sec);
    assert t[1..3] == TwoDigits(sec);
  }

  /** A fraction of three or six digits after the seconds is accepted and
      dropped. */
  lemma FractionIgnored(sec: nat, frac: string)
    requires sec < 60
    requires (|frac| == 3 || |frac| == 6) && AllDigits(frac)
    ensures ParseSeconds(":" + TwoDigits(sec) + "." + frac) == Some(sec)
  {
    var t := ":" + TwoDigits(sec) + "." + frac;
    assert t[1..3] == TwoDigits(sec);
    assert t[3] == '.';
    assert t[4..] == frac;
  }

  /** The ISO parser reads every printed timestamp back as the same stamp. */
  lemma IsoTextRoundTrip(st: Stamp)
    requires ValidStamp(st)
    ensures ParseIsoStamp(IsoText(st)) == Some(st)
  {
    var t := IsoText(st);
    assert t[0..4] == FourDigits(st.year);
    assert t[4] == '-' && t[7] == '-' && t[13] == ':';
    assert t[5..7] == TwoDigits(st.month);
    assert t[8..10] == TwoDigits(st.day);
    assert t[11..13] == TwoDigits(st.hour);
    assert t[14..16] == TwoDigits(st.minute);
    assert t[16..] == ":" + TwoDigits(st.second);
    SecondsRoundTrip(st.second);
  }

  /** A printed timestamp with a fraction of a second parses to the same
      stamp: the fraction is dropped. */
  lemma IsoTextWithFractionParses(st: Stamp, frac: string)
    requires ValidStamp(st)
    requires (|frac| == 3 || |frac| == 6) && AllDigits(frac)
    ensures ParseIsoStamp(IsoText(st) + "." + frac) == Some(st)
  {
    var u := IsoText(st);
    var t := u + "." + frac;
    IsoTextRoundTrip(st);
    assert t[..16] == u[..16];
    assert u[16..] == ":" + TwoDigits(st.second);
    assert t[16..] == ":" + TwoDigits(st.second) + "." + frac;
    FractionIgnored(st.second, frac);
    SecondsRoundTrip(st.second);
    ParseDependsOnFields(t, u);
  }

  /** The parse depends only on the first sixteen characters and on what the
      seconds part parses to. */
  lemma ParseDependsOnFields(t: string, u: string)
    requires |t| >= 16 && |u| >= 16 && t[..16] == u[..16]
    requires ParseSeconds(t[16..]) == ParseSeconds(u[16..])
    ensures ParseIsoStamp(t) == ParseIsoStamp(u)
  {
    assert t[0..4] == u[0..4] && t[5..7] == u[5..7] && t[8..10] == u[8..10];
    assert t[11..13] == u[11..13] && t[14..16] == u[14..16];
    assert t[4] == u[4] && t[7] == u[7] && t[13] == u[13];
  }

  /** A reading dated by a printed timestamp with its `Z` marker gives the
      hour and minute of that timestamp. */
  lemma ReadingClockOfIsoDate<B>(st: Stamp, body: B)
    requires ValidStamp(st)
    ensures ReadingClock(JsonReading(IsoText(st) + "Z", body)) == Some(Clock(st.hour, st.minute))
  {
    DropLastCharUndoesAppend(IsoText(st), 'Z');
    assert IsoText(st) + "Z" == IsoText(st) + ['Z'];
    IsoTextRoundTrip(st);
  }

  /** End to end: a reading dated by a printed timestamp becomes the row of
      its `H:MM` clock text and its body. */
  lemma RowOfIsoReading<B>(st: Stamp, body: B)
    requires ValidStamp(st)
    ensures Rows([JsonReading(IsoText(st) + "Z", body)])
         == Ok([CsvRow(ClockText(Clock(st.hour, st.minute)), body)])
  {
    var x := JsonReading(IsoText(st) + "Z", body);
    ReadingClockOfIsoDate(st, body);
    assert [x][1..] == [];
    assert Rows([x]) == Ok([CsvRow(ClockText(Clock(st.hour, st.minute)), body)] + []);
    assert [CsvRow(ClockText(Clock(st.hour, st.minute)), body)] + []
        == [CsvRow(ClockText(Clock(st.hour, st.minute)), body)];
  }

  /** A date as MongoDB exports it, without its trailing `Z`. */
  const SampleDate: string := "2024-05-10T09:07:31.250"

  lemma SampleDateFields()
    ensures |SampleDate| == 23
    ensures SampleDate[0..4] == "2024" && SampleDate[4] == '-' && SampleDate[5..7] == "05" && SampleDate[7] == '-'
  {
  }

  lemma SampleTimeFields()
    ensures SampleDate[8..10] == "10" && SampleDate[11..13] == "09" && SampleDate[13] == ':'
    ensures SampleDate[14..16] == "07" && SampleDate[16..] == ":31.250"
  {
  }

  lemma SampleSeconds()
    ensures ParseSeconds(":31.250") == Some(31)
  {
    var u := ":31.250";
    assert u[1..3] == "31" && u[4..] == "250";
    TwoDigitsValue("31");
  }

  /** The sample date parses field by field, fraction of a second dropped. */
  lemma SampleDateParses()
    ensures ParseIsoStamp(SampleDate) == Some(Stamp(2024, 5, 10, 9, 7, 31))
  {
    SampleDateFields();
    SampleTimeFields();
    SampleFieldValues();
    SampleSeconds();
  }

  lemma SampleFieldValues()
    ensures AllDigits("2024") && DigitsValue("2024") == 2024
    ensures AllDigits("05") && DigitsValue("05") == 5
    ensures AllDigits("10") && DigitsValue("10") == 10
    ensures AllDigits("09") && DigitsValue("09") == 9
    ensures AllDigits("07") && DigitsValue("07") == 7
  {
    FourDigitsValue("2024");
    TwoDigitsValue("05");
    TwoDigitsValue("10");
    TwoDigitsValue("09");
    TwoDigitsValue("07");
  }

  lemma SampleReadingClock<B>(x: JsonReading<B>)
    requires x.date == SampleDate + "Z"
    ensures ReadingClock(x) == Some(Clock(9, 7))
  {
    assert DropLastChar(x.date) == SampleDate;
    SampleDateParses();
  }

  lemma SampleClockText()
    ensures ClockText(Clock(9, 7)) == "9:07"
  {
  }

  /** A MongoDB-style date string converts to its wall-clock hour and minute,
      the hour without a leading zero. */
  lemma ExampleRow()
    ensures Rows([JsonReading(SampleDate + "Z", 4.5)]) == Ok([CsvRow("9:07", 4.5)])
  {
    var x := JsonReading(SampleDate + "Z", 4.5);
    SampleReadingClock(x);
    SampleClockText();
    assert [x][1..] == [];
    assert Rows([x]) == Ok([CsvRow("9:07", 4.5)] + []);
    assert [CsvRow("9:07", 4.5)] + [] == [CsvRow("9:07", 4.5)];
  }

  predicate EndsWith(t: string, suffix: string)
  {
    |suffix| <= |t| && t[|t| - |suffix|..] == suffix
  }

  /** Position of the last occurrence of `c` in `t`, or -1. */
  function LastIndexOf(t: string, c: char): (r: int)
    ensures -1 <= r < |t|
    ensures r >= 0 ==> t[r] == c
    ensures forall i :: r < i < |t| ==> t[i] != c
  {
    if |t| == 0 then -1
    else if t[|t| - 1] == c then |t| - 1
    else LastIndexOf(t[..|t| - 1], c)
  }

  /** Splitting a bare file name at its last dot, as the path library does:
      leading dots do not start an extension, so `.json` has none. */
  function SplitExt(name: string): (r: (string, string))
    ensures r.0 + r.1 == name
    ensures r.1 == [] || (r.1[0] == '.' && forall i :: 0 < i < |r.1| ==> r.1[i] != '.')
    ensures r.1 != [] <==> exists i :: 0 <= i < LastIndexOf(name, '.') && name[i] != '.'
  {
    var dot := LastIndexOf(name, '.');
    if dot >= 0 && exists i :: 0 <= i < dot && name[i] != '.' then (name[..dot], name[dot..])
    else (name, "")
  }

  /** The output file for a name found in the input folder: only `.json`
      files are converted, into the stem followed by `.csv`. */
  function CsvName(name: string): (r: Option<string>)
    ensures r.Some? <==> EndsWith(name, ".json")
    ensures r.Some? ==> EndsWith(r.value, ".csv")
  {
    if EndsWith(name, ".json") then Some(SplitExt(name).0 + ".csv") else None
  }

  /** A JSON file named `stem.json`, with something other than dots before
      the extension, becomes `stem.csv`. */
  lemma CsvNameReplacesExtension(stem: string)
    requires exists i :: 0 <= i < |stem| && stem[i] != '.'
    ensures CsvName(stem + ".json") == Some(stem + ".csv")
  {
    var name := stem + ".json";
    assert name[|name| - 5..] == ".json";
    var dot := LastIndexOf(name, '.');
    assert dot == |stem| by {
      assert name[|stem|] == '.';
      assert forall i :: |stem| < i < |name| ==> name[i] != '.';
    }
    var i :| 0 <= i < |stem| && stem[i] != '.';
    assert name[i] != '.';
    assert name[..dot] == stem;
  }

  /** A name made only of dots before `json` has no extension to replace, so
      `.csv` is appended to the whole name. */
  lemma DotOnlyNameKeepsJson()
    ensures CsvName(".json") == Some(".json.csv")
  {
    var name := ".json";
    assert name[0] == '.' && name[1] == 'j' && name[2] == 's' && name[3] == 'o' && name[4] == 'n';
    assert LastIndexOf(name, '.') == 0;
    assert SplitExt(name) == (name, "");
    assert EndsWith(name, ".json") by {
      assert name[|name| - 5..] == name;
    }
    assert name + ".csv" == ".json.csv";
  }
}
