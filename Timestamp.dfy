/**
 * Timestamps of the log query engine: the `yyyy-MM-dd HH:mm:ss` layout read by
 * parseTime and written back into each entry, standing for java.time's
 * LocalDateTime with that DateTimeFormatter.  A timestamp is a tuple of six
 * integers compared lexicographically, which is what isBefore and isAfter do
 * on values that carry no fraction of a second.
 */
module Timestamp {
  import opened Wrappers
  import opened Text

  datatype DateTime = DateTime(year: int, month: int, day: int, hour: int, minute: int, second: int)

  predicate IsLeapYear(y: int) {
    y % 4 == 0 && (y % 100 != 0 || y % 400 == 0)
  }

  function DaysInMonth(y: int, m: int): (n: int)
    requires 1 <= m <= 12
    ensures 28 <= n <= 31
  {
    if m == 2 then (if IsLeapYear(y) then 29 else 28)
    else if m == 4 || m == 6 || m == 9 || m == 11 then 30
    else 31
  }

  /** A real calendar date and time of day with a four-digit year. */
  predicate IsValid(t: DateTime) {
    && 1 <= t.year <= 9999
    && 1 <= t.month <= 12
    && 1 <= t.day <= DaysInMonth(t.year, t.month)
    && 0 <= t.hour <= 23
    && 0 <= t.minute <= 59
    && 0 <= t.second <= 59
  }

  /** LocalDateTime.isBefore: strictly earlier, field by field. */
  predicate Before(a: DateTime, b: DateTime) {
    if a.year != b.year then a.year < b.year
    else if a.month != b.month then a.month < b.month
    else if a.day != b.day then a.day < b.day
    else if a.hour != b.hour then a.hour < b.hour
    else if a.minute != b.minute then a.minute < b.minute
    else a.second < b.second
  }

  /** LocalDateTime.isAfter. */
  predicate After(a: DateTime, b: DateTime) {
    Before(b, a)
  }

  /** Before is a strict total order, so "not before start" and "not after
      end" are the inclusive bounds of a time window. */
  lemma BeforeIsStrictTotalOrder(a: DateTime, b: DateTime, c: DateTime)
    ensures !Before(a, a)
    ensures Before(a, b) ==> !Before(b, a)
    ensures Before(a, b) && Before(b, c) ==> Before(a, c)
    ensures a == b || Before(a, b) || Before(b, a)
  {
  }

  // ---------------------------------------------------------------------------
  // Parsing

  /** The pattern `yyyy-MM-dd HH:mm:ss`; 'd' marks a position that takes a digit. */
  const Layout: string := "dddd-dd-dd dd:dd:dd"

  predicate Fits(p: char, c: char) {
    if p == 'd' then IsDigit(c) else c == p
  }

  /** The fixed-width shape the formatter accepts: four-digit year, two-digit
      fields, and the literal separators. */
  predicate HasLayout(s: string) {
    |s| == |Layout| && forall i :: 0 <= i < |s| ==> Fits(Layout[i], s[i])
  }

  lemma DigitFields(s: string)
    requires HasLayout(s)
    ensures AllDigits(s[0..4]) && AllDigits(s[5..7]) && AllDigits(s[8..10])
    ensures AllDigits(s[11..13]) && AllDigits(s[14..16]) && AllDigits(s[17..19])
  {
    assert forall i :: 0 <= i < 4 ==> s[0..4][i] == s[i] && Layout[i] == 'd';
    assert forall i :: 0 <= i < 2 ==> s[5..7][i] == s[5 + i] && Layout[5 + i] == 'd';
    assert forall i :: 0 <= i < 2 ==> s[8..10][i] == s[8 + i] && Layout[8 + i] == 'd';
    assert forall i :: 0 <= i < 2 ==> s[11..13][i] == s[11 + i] && Layout[11 + i] == 'd';
    assert forall i :: 0 <= i < 2 ==> s[14..16][i] == s[14 + i] && Layout[14 + i] == 'd';
    assert forall i :: 0 <= i < 2 ==> s[17..19][i] == s[17 + i] && Layout[17 + i] == 'd';
  }

  lemma {:induction false} DecimalBound(s: string)
    requires AllDigits(s)
    ensures DecimalValue(s) < Pow10(|s|)
  {
    if s != [] {
      DecimalBound(s[..|s| - 1]);
    }
  }

  /** The value of the w digits at index i. */
  function Field(s: string, i: nat, w: nat): (v: nat)
    requires i + w <= |s| && AllDigits(s[i..i + w])
    ensures v < Pow10(w)
  {
    DecimalBound(s[i..i + w]);
    DecimalValue(s[i..i + w])
  }

  /** The six numbers of text in the layout: year, month, day, hour, minute,
      second. */
  function Fields(s: string): (f: (nat, nat, nat, nat, nat, nat))
    requires HasLayout(s)
    ensures f.0 <= 9999
  {
    DigitFields(s);
    (Field(s, 0, 4), Field(s, 5, 2), Field(s, 8, 2), Field(s, 11, 2), Field(s, 14, 2), Field(s, 17, 2))
  }

  /** The resolver's checks on the six fields: month 1-12, day 1-31, hour,
      minute and second in range, a year-of-era of at least 1.  A day past the
      end of its month is moved back to the month's last day. */
  function Resolve(y: nat, mo: nat, d: nat, h: nat, mi: nat, se: nat): (r: Option<DateTime>)
    requires y <= 9999
    ensures r.Some? <==> 1 <= y && 1 <= mo <= 12 && 1 <= d <= 31 && h <= 23 && mi <= 59 && se <= 59
    ensures r.Some? ==> IsValid(r.value)
    ensures r.Some? ==>
      && r.value.year == y && r.value.month == mo
      && r.value.day == (if d <= DaysInMonth(y, mo) then d else DaysInMonth(y, mo))
      && r.value.hour == h && r.value.minute == mi && r.value.second == se
  {
    if 1 <= y && 1 <= mo <= 12 && 1 <= d <= 31 && h <= 23 && mi <= 59 && se <= 59 then
      var last := DaysInMonth(y, mo);
      Some(DateTime(y, mo, if d <= last then d else last, h, mi, se))
    else
      None
  }

  /** LocalDateTime.parse(s, `yyyy-MM-dd HH:mm:ss`): the whole string must have
      the layout, and the fields must resolve. */
  function ParseStamp(s: string): (r: Option<DateTime>)
    ensures r.Some? ==> HasLayout(s) && IsValid(r.value)
  {
    if HasLayout(s) then
      DigitFields(s);
      DecimalBound(s[0..4]);
      Resolve(DecimalValue(s[0..4]), DecimalValue(s[5..7]), DecimalValue(s[8..10]),
              DecimalValue(s[11..13]), DecimalValue(s[14..16]), DecimalValue(s[17..19]))
    else
      None
  }

  /** What a parse of text in the layout gives: a value exactly when every
      field is in range, and then the fields as written, except a day past the
      end of its month, which becomes the month's last day. */
  lemma ParseStampMeaning(s: string)
    requires HasLayout(s)
    ensures var (y, mo, d, h, mi, se) := Fields(s);
      && (ParseStamp(s).Some? <==> 1 <= y && 1 <= mo <= 12 && 1 <= d <= 31 && h <= 23 && mi <= 59 && se <= 59)
      && (ParseStamp(s).Some? ==>
            ParseStamp(s).value == DateTime(y, mo, if d <= DaysInMonth(y, mo) then d else DaysInMonth(y, mo), h, mi, se))
  {
  }

  /** parseTime: none for an absent or blank input; otherwise the trimmed text
      parsed against the layout, any failure again giving none. */
  function ParseTime(s: Option<string>): (r: Option<DateTime>)
    ensures s.None? || IsBlank(s.value) ==> r.None?
    ensures s.Some? && !IsBlank(s.value) ==> r == ParseStamp(Trim(s.value))
    ensures r.Some? ==> IsValid(r.value) && HasLayout(Trim(s.value))
  {
    if s.None? || IsBlank(s.value) then None else ParseStamp(Trim(s.value))
  }

  // ---------------------------------------------------------------------------
  // Formatting

  /** n in exactly w digits, with leading zeros. */
  function Pad(n: nat, w: nat): (r: string)
    ensures |r| == w
  {
    if w == 0 then [] else Pad(n / 10, w - 1) + [DigitChar(n % 10)]
  }

  lemma {:induction false} PadDigits(n: nat, w: nat)
    ensures AllDigits(Pad(n, w))
  {
    if w > 0 {
      PadDigits(n / 10, w - 1);
      assert Pad(n, w)[..w - 1] == Pad(n / 10, w - 1);
    }
  }

  lemma {:induction false} PadRoundTrip(n: nat, w: nat)
    requires n < Pow10(w)
    ensures AllDigits(Pad(n, w)) && DecimalValue(Pad(n, w)) == n
  {
    if w > 0 {
      assert n / 10 < Pow10(w - 1);
      PadRoundTrip(n / 10, w - 1);
      assert Pad(n, w)[..w - 1] == Pad(n / 10, w - 1);
    }
  }

  /** Six numbers written out in the layout, each zero-padded to its width:
      the writing of Format below, for any numbers, so also for text whose
      fields are out of range. */
  function Render(y: nat, mo: nat, d: nat, h: nat, mi: nat, se: nat): string {
    (Pad(y, 4) + "-" + Pad(mo, 2) + "-" + Pad(d, 2)) + " " + (Pad(h, 2) + ":" + Pad(mi, 2) + ":" + Pad(se, 2))
  }

  /** Where the pieces of a + [x] + b sit. */
  lemma Glue3(a: string, x: char, b: string)
    ensures var s := a + [x] + b;
      s[..|a|] == a && s[|a|] == x && s[|a| + 1..] == b
  {
    var s := a + [x] + b;
    assert s[..|a|] == a;
    assert s[|a| + 1..] == b;
  }

  /** Where the pieces of a + [x] + b + [z] + c sit. */
  lemma Glue5(a: string, x: char, b: string, z: char, c: string)
    ensures var s := a + [x] + b + [z] + c;
      && s[..|a|] == a && s[|a|] == x && s[|a| + 1..|a| + 1 + |b|] == b
      && s[|a| + 1 + |b|] == z && s[|a| + 2 + |b|..] == c
  {
    var s := a + [x] + b + [z] + c;
    Glue3(a + [x] + b, z, c);
    Glue3(a, x, b);
    assert s[..|a| + 1 + |b|] == a + [x] + b;
    assert s[|a| + 1..|a| + 1 + |b|] == (a + [x] + b)[|a| + 1..];
    assert s[..|a|] == (a + [x] + b)[..|a|];
  }

  lemma RenderParts(y: nat, mo: nat, d: nat, h: nat, mi: nat, se: nat)
    ensures var f := Render(y, mo, d, h, mi, se);
      && |f| == 19
      && f[0..4] == Pad(y, 4) && f[5..7] == Pad(mo, 2) && f[8..10] == Pad(d, 2)
      && f[11..13] == Pad(h, 2) && f[14..16] == Pad(mi, 2) && f[17..19] == Pad(se, 2)
      && f[4] == '-' && f[7] == '-' && f[10] == ' ' && f[13] == ':' && f[16] == ':'
  {
    var f := Render(y, mo, d, h, mi, se);
    var date := Pad(y, 4) + "-" + Pad(mo, 2) + "-" + Pad(d, 2);
    var time := Pad(h, 2) + ":" + Pad(mi, 2) + ":" + Pad(se, 2);
    assert f == date + [' '] + time;
    Glue3(date, ' ', time);
    Glue5(Pad(y, 4), '-', Pad(mo, 2), '-', Pad(d, 2));
    Glue5(Pad(h, 2), ':', Pad(mi, 2), ':', Pad(se, 2));
    assert f[0..4] == date[..4] && f[5..7] == date[5..7] && f[8..10] == date[8..];
    assert f[11..13] == time[..2] && f[14..16] == time[3..5] && f[17..19] == time[6..];
    assert f[4] == date[4] && f[7] == date[7] && f[13] == time[2] && f[16] == time[5];
  }

  /** Numbers that fit their widths, written out, have the layout ... */
  lemma RenderLayout(y: nat, mo: nat, d: nat, h: nat, mi: nat, se: nat)
    ensures HasLayout(Render(y, mo, d, h, mi, se))
  {
    RenderParts(y, mo, d, h, mi, se);
    PadDigits(y, 4);
    PadDigits(mo, 2);
    PadDigits(d, 2);
    PadDigits(h, 2);
    PadDigits(mi, 2);
    PadDigits(se, 2);
    LayoutByParts(Render(y, mo, d, h, mi, se));
  }

  /** A zero-padded number that fits its width reads back as itself. */
  lemma FieldOfPad(s: string, i: nat, w: nat, n: nat)
    requires i + w <= |s| && s[i..i + w] == Pad(n, w) && n < Pow10(w)
    ensures AllDigits(s[i..i + w]) && Field(s, i, w) == n
  {
    PadRoundTrip(n, w);
  }

  /** ... and read back as themselves. */
  lemma RenderFields(y: nat, mo: nat, d: nat, h: nat, mi: nat, se: nat)
    requires y < 10000 && mo < 100 && d < 100 && h < 100 && mi < 100 && se < 100
    ensures HasLayout(Render(y, mo, d, h, mi, se))
    ensures Fields(Render(y, mo, d, h, mi, se)) == (y, mo, d, h, mi, se)
  {
    var f := Render(y, mo, d, h, mi, se);
    RenderLayout(y, mo, d, h, mi, se);
    RenderParts(y, mo, d, h, mi, se);
    FieldOfPad(f, 0, 4, y);
    FieldOfPad(f, 5, 2, mo);
    FieldOfPad(f, 8, 2, d);
    FieldOfPad(f, 11, 2, h);
    FieldOfPad(f, 14, 2, mi);
    FieldOfPad(f, 17, 2, se);
  }

  /** ts.format(`yyyy-MM-dd HH:mm:ss`). */
  function Format(t: DateTime): string
    requires IsValid(t)
  {
    (Pad(t.year, 4) + "-" + Pad(t.month, 2) + "-" + Pad(t.day, 2)) + " "
      + (Pad(t.hour, 2) + ":" + Pad(t.minute, 2) + ":" + Pad(t.second, 2))
  }

  /** Formatting a timestamp is writing out its six fields. */
  lemma FormatIsRender(t: DateTime)
    requires IsValid(t)
    ensures Format(t) == Render(t.year, t.month, t.day, t.hour, t.minute, t.second)
  {
  }

  lemma FormatParts(t: DateTime)
    requires IsValid(t)
    ensures var f := Format(t);
      && |f| == 19
      && f[0..4] == Pad(t.year, 4) && f[5..7] == Pad(t.month, 2) && f[8..10] == Pad(t.day, 2)
      && f[11..13] == Pad(t.hour, 2) && f[14..16] == Pad(t.minute, 2) && f[17..19] == Pad(t.second, 2)
      && f[4] == '-' && f[7] == '-' && f[10] == ' ' && f[13] == ':' && f[16] == ':'
  {
    FormatIsRender(t);
    RenderParts(t.year, t.month, t.day, t.hour, t.minute, t.second);
  }

  /** A formatted timestamp has the layout and parses back to itself. */
  lemma FormatParseRoundTrip(t: DateTime)
    requires IsValid(t)
    ensures HasLayout(Format(t))
    ensures ParseStamp(Format(t)) == Some(t)
  {
    FormatIsRender(t);
    RenderFields(t.year, t.month, t.day, t.hour, t.minute, t.second);
    ParseStampMeaning(Format(t));
  }

  /** Zero-padding the value of a numeral to its own width gives the numeral
      back. */
  lemma {:induction false} PadOfDigits(x: string)
    requires AllDigits(x)
    ensures Pad(DecimalValue(x), |x|) == x
    decreases |x|
  {
    if x != [] {
      var p, c := x[..|x| - 1], x[|x| - 1];
      var m, v := DecimalValue(p), DigitValue(c);
      assert DecimalValue(x) == m * 10 + v;
      assert (m * 10 + v) / 10 == m && (m * 10 + v) % 10 == v;
      PadOfDigits(p);
      assert DigitChar(v) == c;
      calc {
        Pad(DecimalValue(x), |x|);
        Pad(m, |p|) + [DigitChar(v)];
        p + [c];
        x;
      }
    }
  }

  /** A string of the layout's length with digits in the six fields and the
      five separators in place has the layout. */
  lemma LayoutByParts(f: string)
    requires |f| == 19
    requires AllDigits(f[0..4]) && AllDigits(f[5..7]) && AllDigits(f[8..10])
    requires AllDigits(f[11..13]) && AllDigits(f[14..16]) && AllDigits(f[17..19])
    requires f[4] == '-' && f[7] == '-' && f[10] == ' ' && f[13] == ':' && f[16] == ':'
    ensures HasLayout(f)
  {
    forall i | 0 <= i < 19 ensures Fits(Layout[i], f[i]) {
      if i < 4 { assert f[i] == f[0..4][i] && Layout[i] == 'd'; }
      else if 5 <= i < 7 { assert f[i] == f[5..7][i - 5] && Layout[i] == 'd'; }
      else if 8 <= i < 10 { assert f[i] == f[8..10][i - 8] && Layout[i] == 'd'; }
      else if 11 <= i < 13 { assert f[i] == f[11..13][i - 11] && Layout[i] == 'd'; }
      else if 14 <= i < 16 { assert f[i] == f[14..16][i - 14] && Layout[i] == 'd'; }
      else if 17 <= i < 19 { assert f[i] == f[17..19][i - 17] && Layout[i] == 'd'; }
    }
  }

  /** Two strings of the layout's length that agree on the six fields and the
      five separators are the same string. */
  lemma SameByParts(f: string, s: string)
    requires |f| == 19 && |s| == 19
    requires f[0..4] == s[0..4] && f[5..7] == s[5..7] && f[8..10] == s[8..10]
    requires f[11..13] == s[11..13] && f[14..16] == s[14..16] && f[17..19] == s[17..19]
    requires f[4] == s[4] && f[7] == s[7] && f[10] == s[10] && f[13] == s[13] && f[16] == s[16]
    ensures f == s
  {
    forall i | 0 <= i < 19 ensures f[i] == s[i] {
      if i < 4 { assert f[i] == f[0..4][i] && s[i] == s[0..4][i]; }
      else if 5 <= i < 7 { assert f[i] == f[5..7][i - 5] && s[i] == s[5..7][i - 5]; }
      else if 8 <= i < 10 { assert f[i] == f[8..10][i - 8] && s[i] == s[8..10][i - 8]; }
      else if 11 <= i < 13 { assert f[i] == f[11..13][i - 11] && s[i] == s[11..13][i - 11]; }
      else if 14 <= i < 16 { assert f[i] == f[14..16][i - 14] && s[i] == s[14..16][i - 14]; }
      else if 17 <= i < 19 { assert f[i] == f[17..19][i - 17] && s[i] == s[17..19][i - 17]; }
    }
  }

  /** Text in the layout is the writing out of its own fields. */
  lemma RenderOfFields(s: string)
    requires HasLayout(s)
    ensures var (y, mo, d, h, mi, se) := Fields(s); Render(y, mo, d, h, mi, se) == s
  {
    var (y, mo, d, h, mi, se) := Fields(s);
    var f := Render(y, mo, d, h, mi, se);
    DigitFields(s);
    RenderParts(y, mo, d, h, mi, se);
    PadOfDigits(s[0..4]);
    PadOfDigits(s[5..7]);
    PadOfDigits(s[8..10]);
    PadOfDigits(s[11..13]);
    PadOfDigits(s[14..16]);
    PadOfDigits(s[17..19]);
    assert Fits(Layout[4], s[4]) && Fits(Layout[7], s[7]) && Fits(Layout[10], s[10]);
    assert Fits(Layout[13], s[13]) && Fits(Layout[16], s[16]);
    SameByParts(f, s);
  }

  /** Text that parses is exactly the formatting of its value, unless its day
      was past the end of its month and moved back. */
  lemma StampFormatRoundTrip(s: string)
    requires ParseStamp(s).Some?
    ensures Format(ParseStamp(s).value) == s <==> ParseStamp(s).value.day == Fields(s).2
  {
    var t := ParseStamp(s).value;
    var (y, mo, d, h, mi, se) := Fields(s);
    ParseStampMeaning(s);
    FormatIsRender(t);
    RenderOfFields(s);
    RenderFields(y, mo, t.day, h, mi, se);
  }

  /** Numbers that fit their widths, written out, parse as the resolver
      decides about them. */
  lemma ParseRendered(y: nat, mo: nat, d: nat, h: nat, mi: nat, se: nat)
    requires y < 10000 && mo < 100 && d < 100 && h < 100 && mi < 100 && se < 100
    ensures ParseStamp(Render(y, mo, d, h, mi, se)) == Resolve(y, mo, d, h, mi, se)
  {
    RenderFields(y, mo, d, h, mi, se);
  }

  /** Month 13 is out of range, so "2024-13-01 00:00:00" does not parse. */
  lemma MonthThirteenFails()
    ensures ParseStamp("2024-13-01 00:00:00").None?
  {
    var s := "2024-13-01 00:00:00";
    if HasLayout(s) {
      DigitFields(s);
      assert s[5..7] == ['1', '3'];
      DecimalOfTwo('1', '3');
    }
  }

  /** February 30th of a common year, written out, is moved back to February
      28th. */
  lemma FebruaryThirtiethRendered()
    ensures ParseStamp(Render(2023, 2, 30, 12, 0, 0)) == Some(DateTime(2023, 2, 28, 12, 0, 0))
  {
    ParseRendered(2023, 2, 30, 12, 0, 0);
  }

  /** The six fields of "2023-02-30 12:00:00". */
  lemma FebruaryThirtiethFields()
    ensures HasLayout("2023-02-30 12:00:00")
    ensures Fields("2023-02-30 12:00:00") == (2023, 2, 30, 12, 0, 0)
  {
    var s := "2023-02-30 12:00:00";
    assert s[0..4] == ['2', '0', '2', '3'];
    assert s[5..7] == ['0', '2'];
    assert s[8..10] == ['3', '0'];
    assert s[11..13] == ['1', '2'];
    assert s[14..16] == ['0', '0'];
    assert s[17..19] == ['0', '0'];
    DecimalOfFour('2', '0', '2', '3');
    DecimalOfTwo('0', '2');
    DecimalOfTwo('3', '0');
    DecimalOfTwo('1', '2');
    DecimalOfTwo('0', '0');
    LayoutByParts(s);
  }

  /** "2023-02-30 12:00:00" parses as 2023-02-28 12:00:00. */
  lemma FebruaryThirtiethClamps()
    ensures ParseStamp("2023-02-30 12:00:00") == Some(DateTime(2023, 2, 28, 12, 0, 0))
  {
    var s := "2023-02-30 12:00:00";
    FebruaryThirtiethFields();
    RenderOfFields(s);
    FebruaryThirtiethRendered();
  }

  /** parseTime of a formatted timestamp, with any whitespace around it, gives
      the timestamp back. */
  lemma ParseTimeRoundTrip(t: DateTime, pre: string, post: string)
    requires IsValid(t) && IsBlank(pre) && IsBlank(post)
    ensures ParseTime(Some(pre + Format(t) + post)) == Some(t)
  {
    var f := Format(t);
    FormatParseRoundTrip(t);
    assert IsDigit(f[0]) && IsDigit(f[18]);
    TrimAround(pre, f, post);
    assert (pre + f + post)[|pre|] == f[0];
  }
}
