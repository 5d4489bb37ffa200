/** The two date formatters of `PlayFabFetcher`:
    `format_timestamp` (Unix seconds to a UTC `YYYY-MM-DD HH:MM:SS` string,
    falling back to `str(timestamp)`) and `format_iso_to_sql_datetime`
    (an RFC 3339 date-time such as `2020-01-01T12:34:56.789Z` rewritten in
    the SQL form `YYYY-MM-DD HH:MM:SS`, or nothing). */
module DateFormat {
  import opened Optional
  import opened Text
  import opened Calendar

  datatype DateTime = DateTime(date: Date, hour: int, minute: int, second: int)

  predicate ValidDateTime(t: DateTime)
  {
    && ValidDate(t.date)
    && 0 <= t.hour < 24
    && 0 <= t.minute < 60
    && 0 <= t.second < 60
  }

  /** Ordinal of 1970-01-01, the Unix epoch. */
  const EpochOrdinal := 719162

  /** Seconds since 1970-01-01 00:00:00 UTC of a civil date-time. */
  function EpochSeconds(t: DateTime): int
    requires ValidDateTime(t)
  {
    (Ordinal(t.date) - EpochOrdinal) * 86400 + t.hour * 3600 + t.minute * 60 + t.second
  }

  /** The timestamps `datetime.utcfromtimestamp` turns into a date-time: those
      falling in years 1 to 9999, from 0001-01-01 00:00:00 (ordinal 0, i.e.
      719162 days before the epoch) to 9999-12-31 23:59:59 (one second before
      ordinal `OrdinalLimit`). */
  predicate InRange(ts: int)
  {
    -EpochOrdinal * 86400 <= ts < (OrdinalLimit - EpochOrdinal) * 86400
  }

  /** `datetime.utcfromtimestamp(ts)`: the UTC date-time `ts` seconds after
      the epoch (before it when negative). */
  function FromTimestamp(ts: int): (t: DateTime)
    requires InRange(ts)
    ensures ValidDateTime(t)
    ensures EpochSeconds(t) == ts
  {
    var days, secs := ts / 86400, ts % 86400;
    SplitTimestamp(ts);
    TimeOfDay(secs);
    var date := FromOrdinal(days + EpochOrdinal);
    DateTime(date, secs / 3600, (secs % 3600) / 60, secs % 60)
  }

  lemma SplitTimestamp(ts: int)
    requires InRange(ts)
    ensures ts == (ts / 86400) * 86400 + ts % 86400
    ensures 0 <= ts % 86400 < 86400
    ensures 0 <= ts / 86400 + EpochOrdinal < OrdinalLimit
  {
  }

  lemma TimeOfDay(secs: int)
    requires 0 <= secs < 86400
    ensures 0 <= secs / 3600 < 24 && 0 <= (secs % 3600) / 60 < 60 && 0 <= secs % 60 < 60
    ensures secs == (secs / 3600) * 3600 + ((secs % 3600) / 60) * 60 + secs % 60
  {
  }

  /** Every valid date-time is the conversion of exactly one timestamp. */
  lemma FromTimestampOfEpochSeconds(t: DateTime)
    requires ValidDateTime(t)
    ensures InRange(EpochSeconds(t))
    ensures FromTimestamp(EpochSeconds(t)) == t
  {
    FromOrdinalOfOrdinal(t.date);
    FromTimestampOfFields(EpochSeconds(t), Ordinal(t.date), t.hour, t.minute, t.second);
  }

  /** The conversion of the timestamp of day `n` at `h:mi:sec`. */
  lemma FromTimestampOfFields(ts: int, n: int, h: int, mi: int, sec: int)
    requires 0 <= n < OrdinalLimit
    requires 0 <= h < 24 && 0 <= mi < 60 && 0 <= sec < 60
    requires ts == (n - EpochOrdinal) * 86400 + h * 3600 + mi * 60 + sec
    ensures InRange(ts)
    ensures FromTimestamp(ts) == DateTime(FromOrdinal(n), h, mi, sec)
  {
    TimestampFields(ts, n - EpochOrdinal, h, mi, sec);
    var days, secs := ts / 86400, ts % 86400;
    assert FromTimestamp(ts) == DateTime(FromOrdinal(days + EpochOrdinal), secs / 3600, (secs % 3600) / 60, secs % 60);
  }

  /** The day number and the clock fields are read back from the timestamp
      they make up. */
  lemma TimestampFields(ts: int, days: int, h: int, mi: int, sec: int)
    requires -EpochOrdinal <= days < OrdinalLimit - EpochOrdinal
    requires 0 <= h < 24 && 0 <= mi < 60 && 0 <= sec < 60
    requires ts == days * 86400 + h * 3600 + mi * 60 + sec
    ensures InRange(ts)
    ensures ts / 86400 == days
    ensures (ts % 86400) / 3600 == h
    ensures ((ts % 86400) % 3600) / 60 == mi
    ensures (ts % 86400) % 60 == sec
  {
    var rest := mi * 60 + sec;
    var secs := h * 3600 + rest;
    DivMod86400(days, secs);
    DivMod3600(h, rest);
    DivMod60(mi, sec);
    assert secs % 60 == sec by {
      assert secs == (h * 60 + mi) * 60 + sec;
      DivMod60(h * 60 + mi, sec);
    }
  }

  /** Splitting into whole days and seconds of the day is unique. */
  lemma DivMod86400(q: int, r: int)
    requires 0 <= r < 86400
    ensures (q * 86400 + r) / 86400 == q && (q * 86400 + r) % 86400 == r
  {
  }

  lemma DivMod3600(q: int, r: int)
    requires 0 <= r < 3600
    ensures (q * 3600 + r) / 3600 == q && (q * 3600 + r) % 3600 == r
  {
  }

  lemma DivMod60(q: int, r: int)
    requires 0 <= r < 60
    ensures (q * 60 + r) / 60 == q && (q * 60 + r) % 60 == r
  {
  }

  // ----- rendering -----

  /** `%Y`: the year as four digits. */
  function Year4(y: int): (s: string)
    requires 0 <= y < 10000
    ensures |s| == 4 && AllDigits(s)
  {
    [DigitChar(y / 1000), DigitChar(y / 100 % 10), DigitChar(y / 10 % 10), DigitChar(y % 10)]
  }

  /** `%m`, `%d`, `%H`, `%M`, `%S`: two digits, zero-padded. */
  function Two(n: int): (s: string)
    requires 0 <= n < 100
    ensures |s| == 2 && AllDigits(s)
  {
    [DigitChar(n / 10), DigitChar(n % 10)]
  }

  /** `strftime('%Y-%m-%d' + sep + '%H:%M:%S')`. */
  function Render(t: DateTime, sep: char): (s: string)
    requires ValidDateTime(t)
    ensures |s| == 19
  {
    Year4(t.date.year) + "-" + Two(t.date.month) + "-" + Two(t.date.day)
      + [sep] + Two(t.hour) + ":" + Two(t.minute) + ":" + Two(t.second)
  }

  /** `strftime('%Y-%m-%d %H:%M:%S')`, the SQL `DATETIME` literal form; it
      reads back as the same date-time. */
  function RenderSql(t: DateTime): (s: string)
    requires ValidDateTime(t)
    ensures |s| == 19
    ensures ParseIso(s) == Some(t)
    ensures s[10] == ' '
  {
    ParseIsoOfRender(t, ' ');
    RenderChars(t, ' ');
    Render(t, ' ')
  }

  // ----- format_timestamp -----

  /** `PlayFabFetcher.format_timestamp`: the UTC date-time of `ts` in SQL
      form, or `str(ts)` when `utcfromtimestamp` rejects it. */
  function FormatTimestamp(ts: int): (s: string)
    ensures InRange(ts) ==> |s| == 19
    ensures !InRange(ts) ==> s == IntToDecimal(ts) && ParseDecimal(s) == Some(ts)
  {
    if InRange(ts) then RenderSql(FromTimestamp(ts))
    else
      IntToDecimalRoundTrip(ts);
      IntToDecimal(ts)
  }

  /** The formatted string names the instant `ts`: parsed back as an ISO
      date-time it gives a valid date-time whose timestamp is `ts`. */
  lemma FormatTimestampDenotesInstant(ts: int)
    requires InRange(ts)
    ensures ParseIso(FormatTimestamp(ts)).Some?
    ensures ValidDateTime(ParseIso(FormatTimestamp(ts)).value)
    ensures EpochSeconds(ParseIso(FormatTimestamp(ts)).value) == ts
  {
    ParseIsoOfRender(FromTimestamp(ts), ' ');
  }

  /** A valid date-time's timestamp is formatted as that date-time. */
  lemma FormatTimestampOfEpochSeconds(t: DateTime)
    requires ValidDateTime(t)
    ensures FormatTimestamp(EpochSeconds(t)) == RenderSql(t)
  {
    FromTimestampOfEpochSeconds(t);
  }

  /** Example: 1700000000 is 2023-11-14 22:13:20 UTC. */
  lemma FormatTimestampExample()
    ensures FormatTimestamp(1700000000) == "2023-11-14 22:13:20"
  {
    var t := DateTime(Date(2023, 11, 14), 22, 13, 20);
    assert ValidDateTime(t);
    assert EpochSeconds(t) == 1700000000 by {
      assert DaysBeforeYear(2023) == 738520;
      assert Ordinal(t.date) == 738837;
    }
    assert RenderSql(t) == "2023-11-14 22:13:20";
    FormatTimestampOfEpochSeconds(t);
  }

  // ----- format_iso_to_sql_datetime -----

  /** The four-digit number at `s[i..i + 4]`, if those are digits. */
  function Digits4At(s: string, i: nat): Option<int>
    requires i + 4 <= |s|
  {
    if IsDigit(s[i]) && IsDigit(s[i + 1]) && IsDigit(s[i + 2]) && IsDigit(s[i + 3]) then
      Some(1000 * DigitValue(s[i]) + 100 * DigitValue(s[i + 1]) + 10 * DigitValue(s[i + 2]) + DigitValue(s[i + 3]))
    else None
  }

  /** The two-digit number at `s[i..i + 2]`, if those are digits. */
  function Digits2At(s: string, i: nat): Option<int>
    requires i + 2 <= |s|
  {
    if IsDigit(s[i]) && IsDigit(s[i + 1]) then Some(10 * DigitValue(s[i]) + DigitValue(s[i + 1])) else None
  }

  /** `datetime.fromisoformat` restricted to `YYYY-MM-DD` and
      `YYYY-MM-DD` + (`T` or space) + `HH:MM:SS`, with the field range checks
      of `datetime`'s constructor. */
  function ParseIso(s: string): (r: Option<DateTime>)
    ensures r.Some? ==> ValidDateTime(r.value)
  {
    if |s| != 10 && |s| != 19 then None
    else if s[4] != '-' || s[7] != '-' then None
    else if |s| == 19 && ((s[10] != 'T' && s[10] != ' ') || s[13] != ':' || s[16] != ':') then None
    else
      match (Digits4At(s, 0), Digits2At(s, 5), Digits2At(s, 8))
      case (Some(y), Some(mo), Some(d)) =>
        var time :=
          if |s| == 10 then (Some(0), Some(0), Some(0))
          else (Digits2At(s, 11), Digits2At(s, 14), Digits2At(s, 17));
        (match time
         case (Some(h), Some(mi), Some(sec)) =>
           var t := DateTime(Date(y, mo, d), h, mi, sec);
           if ValidDateTime(t) then Some(t) else None
         case _ => None)
      case _ => None
  }

  /** Python's `s.replace("Z", "")`. */
  function RemoveZ(s: string): (r: string)
    ensures 'Z' !in r
    ensures |r| == |s| - multiset(s)['Z']
  {
    if |s| == 0 then ""
    else
      assert s == [s[0]] + s[1..];
      if s[0] == 'Z' then RemoveZ(s[1..])
      else [s[0]] + RemoveZ(s[1..])
  }

  /** Python's `s.split(".")[0]`: the part of `s` before its first `.`. */
  function BeforeDot(s: string): (r: string)
    ensures '.' !in r
    ensures r <= s
    ensures |r| < |s| ==> s[|r|] == '.'
  {
    if |s| == 0 || s[0] == '.' then ""
    else [s[0]] + BeforeDot(s[1..])
  }

  /** `PlayFabFetcher.format_iso_to_sql_datetime`. `None` (Python's `None`)
      and the empty string give nothing; otherwise every `Z` is dropped, the
      fraction after the first `.` is cut, and the rest must parse. */
  function IsoToSql(iso: Option<string>): (r: Option<string>)
    ensures iso == None || iso == Some("") ==> r == None
    ensures r.Some? ==> |r.value| == 19 && ParseIso(r.value).Some?
  {
    match iso
    case None => None
    case Some(s) =>
      if s == "" then None
      else
        match ParseIso(Cleaned(s))
        case None => None
        case Some(t) => Some(RenderSql(t))
  }

  // ----- round trips -----

  /** The characters of a rendering, position by position. */
  lemma RenderChars(t: DateTime, sep: char)
    requires ValidDateTime(t)
    ensures var s := Render(t, sep);
      && s[0..4] == Year4(t.date.year) && s[4] == '-'
      && s[5..7] == Two(t.date.month) && s[7] == '-'
      && s[8..10] == Two(t.date.day) && s[10] == sep
      && s[11..13] == Two(t.hour) && s[13] == ':'
      && s[14..16] == Two(t.minute) && s[16] == ':'
      && s[17..19] == Two(t.second)
  {
    var s := Render(t, sep);
    var y, mo, d := Year4(t.date.year), Two(t.date.month), Two(t.date.day);
    var h, mi, se := Two(t.hour), Two(t.minute), Two(t.second);
    var date := y + "-" + mo + "-" + d;
    var time := h + ":" + mi + ":" + se;
    assert s == date + [sep] + time;
    assert |date| == 10 && |time| == 8;
    assert s[0..10] == date && s[11..19] == time;
    assert date[0..4] == y && date[5..7] == mo && date[8..10] == d;
    assert time[0..2] == h && time[3..5] == mi && time[6..8] == se;
  }

  /** A rendered date-time parses back to itself, with either separator. */
  lemma ParseIsoOfRender(t: DateTime, sep: char)
    requires ValidDateTime(t)
    requires sep == 'T' || sep == ' '
    ensures ParseIso(Render(t, sep)) == Some(t)
  {
    var s := Render(t, sep);
    RenderChars(t, sep);
    Digits4OfYear4(s, 0, t.date.year);
    Digits2OfTwo(s, 5, t.date.month);
    Digits2OfTwo(s, 8, t.date.day);
    Digits2OfTwo(s, 11, t.hour);
    Digits2OfTwo(s, 14, t.minute);
    Digits2OfTwo(s, 17, t.second);
  }

  lemma Digits2OfTwo(s: string, i: nat, n: int)
    requires 0 <= n < 100
    requires i + 2 <= |s| && s[i..i + 2] == Two(n)
    ensures Digits2At(s, i) == Some(n)
  {
    assert s[i] == s[i..i + 2][0] && s[i + 1] == s[i..i + 2][1];
  }

  lemma TwoOfDigits2(s: string, i: nat)
    requires i + 2 <= |s| && Digits2At(s, i).Some?
    ensures 0 <= Digits2At(s, i).value < 100
    ensures Two(Digits2At(s, i).value) == s[i..i + 2]
  {
  }

  lemma Digits4OfYear4(s: string, i: nat, y: int)
    requires 0 <= y < 10000
    requires i + 4 <= |s| && s[i..i + 4] == Year4(y)
    ensures Digits4At(s, i) == Some(y)
  {
    assert s[i] == s[i..i + 4][0] && s[i + 1] == s[i..i + 4][1];
    assert s[i + 2] == s[i..i + 4][2] && s[i + 3] == s[i..i + 4][3];
    FourDigits(y);
  }

  lemma Year4OfDigits4(s: string, i: nat)
    requires i + 4 <= |s| && Digits4At(s, i).Some?
    ensures 0 <= Digits4At(s, i).value < 10000
    ensures Year4(Digits4At(s, i).value) == s[i..i + 4]
  {
    var a, b, c, d := DigitValue(s[i]), DigitValue(s[i + 1]), DigitValue(s[i + 2]), DigitValue(s[i + 3]);
    var y := 1000 * a + 100 * b + 10 * c + d;
    assert y / 1000 == a && y / 100 % 10 == b && y / 10 % 10 == c && y % 10 == d by {
      assert y / 10 == 100 * a + 10 * b + c;
      assert y / 100 == 10 * a + b;
    }
    assert Year4(y) == s[i..i + 4];
  }

  /** Four digits spell the number back. */
  lemma FourDigits(y: int)
    requires 0 <= y < 10000
    ensures 1000 * (y / 1000) + 100 * (y / 100 % 10) + 10 * (y / 10 % 10) + y % 10 == y
  {
    assert y / 100 == 10 * (y / 1000) + y / 100 % 10;
    assert y / 10 == 10 * (y / 100) + y / 10 % 10;
  }

  /** The parser accepts nothing but renderings: a 19-character input it
      accepts is the rendering of its result with the input's separator, a
      10-character one is the date part of that rendering. */
  lemma ParseIsoOnlyRenderings(s: string)
    requires ParseIso(s).Some?
    ensures |s| == 19 ==> s == Render(ParseIso(s).value, s[10])
    ensures |s| == 10 ==> s == Render(ParseIso(s).value, 'T')[..10]
  {
    var t := ParseIso(s).value;
    ParseIsoFields(s);
    var sep := if |s| == 19 then s[10] else 'T';
    var r := Render(t, sep);
    DatePartOfFields(s, t, sep);
    if |s| == 19 {
      TimePartOfFields(s, t, sep);
      assert r == r[..10] + r[10..] && s == s[..10] + s[10..];
    } else {
      assert s == s[..10];
    }
  }

  /** What the parser checked of an input it accepts. */
  lemma ParseIsoFields(s: string)
    requires ParseIso(s).Some?
    ensures var t := ParseIso(s).value;
      && (|s| == 10 || |s| == 19)
      && s[4] == '-' && s[7] == '-'
      && Digits4At(s, 0) == Some(t.date.year)
      && Digits2At(s, 5) == Some(t.date.month)
      && Digits2At(s, 8) == Some(t.date.day)
      && (|s| == 19 ==>
          && (s[10] == 'T' || s[10] == ' ') && s[13] == ':' && s[16] == ':'
          && Digits2At(s, 11) == Some(t.hour)
          && Digits2At(s, 14) == Some(t.minute)
          && Digits2At(s, 17) == Some(t.second))
      && (|s| == 10 ==> t.hour == 0 && t.minute == 0 && t.second == 0)
  {
  }

  lemma DatePartOfFields(s: string, t: DateTime, sep: char)
    requires ValidDateTime(t)
    requires |s| >= 10 && s[4] == '-' && s[7] == '-'
    requires Digits4At(s, 0) == Some(t.date.year)
    requires Digits2At(s, 5) == Some(t.date.month)
    requires Digits2At(s, 8) == Some(t.date.day)
    ensures s[..10] == Render(t, sep)[..10]
  {
    var r := Render(t, sep);
    RenderChars(t, sep);
    Year4OfDigits4(s, 0);
    TwoOfDigits2(s, 5);
    TwoOfDigits2(s, 8);
    assert r[..10] == r[0..4] + [r[4]] + r[5..7] + [r[7]] + r[8..10];
    assert s[..10] == s[0..4] + [s[4]] + s[5..7] + [s[7]] + s[8..10];
  }

  lemma TimePartOfFields(s: string, t: DateTime, sep: char)
    requires ValidDateTime(t)
    requires |s| == 19 && s[10] == sep && s[13] == ':' && s[16] == ':'
    requires Digits2At(s, 11) == Some(t.hour)
    requires Digits2At(s, 14) == Some(t.minute)
    requires Digits2At(s, 17) == Some(t.second)
    ensures s[10..] == Render(t, sep)[10..]
  {
    var r := Render(t, sep);
    RenderChars(t, sep);
    TwoOfDigits2(s, 11);
    TwoOfDigits2(s, 14);
    TwoOfDigits2(s, 17);
    assert r[10..] == [r[10]] + r[11..13] + [r[13]] + r[14..16] + [r[16]] + r[17..19];
    assert s[10..] == [s[10]] + s[11..13] + [s[13]] + s[14..16] + [s[16]] + s[17..19];
  }


  lemma {:induction false} RemoveZAppend(a: string, b: string)
    ensures RemoveZ(a + b) == RemoveZ(a) + RemoveZ(b)
  {
    if |a| > 0 {
      assert (a + b)[1..] == a[1..] + b;
      RemoveZAppend(a[1..], b);
    } else {
      assert a + b == b;
    }
  }

  lemma RemoveZCons(c: char, x: string)
    requires c != 'Z'
    ensures RemoveZ([c] + x) == [c] + RemoveZ(x)
  {
    assert ([c] + x)[1..] == x;
  }

  lemma {:induction false} RemoveZNoZ(s: string)
    requires 'Z' !in s
    ensures RemoveZ(s) == s
  {
    if |s| > 0 {
      assert 'Z' !in s[1..] by { assert forall i :: 0 <= i < |s| - 1 ==> s[1..][i] == s[i + 1]; }
      RemoveZNoZ(s[1..]);
    }
  }

  lemma {:induction false} BeforeDotAppend(a: string, b: string)
    requires '.' !in a
    requires b == [] || b[0] == '.'
    ensures BeforeDot(a + b) == a
  {
    if |a| > 0 {
      assert (a + b)[1..] == a[1..] + b;
      assert '.' !in a[1..] by { assert forall i :: 0 <= i < |a| - 1 ==> a[1..][i] == a[i + 1]; }
      BeforeDotAppend(a[1..], b);
    } else {
      assert a + b == b;
    }
  }

  /** A rendering holds digits, `-`, `:` and the separator: no `Z`, no `.`. */
  lemma RenderHasNoZOrDot(t: DateTime, sep: char)
    requires ValidDateTime(t)
    requires sep == 'T' || sep == ' '
    ensures 'Z' !in Render(t, sep) && '.' !in Render(t, sep)
  {
    var s := Render(t, sep);
    RenderChars(t, sep);
    forall i | 0 <= i < 19
      ensures s[i] != 'Z' && s[i] != '.'
    {
      if i < 4 {
        assert s[i] == s[0..4][i];
      } else if 5 <= i < 7 {
        assert s[i] == s[5..7][i - 5];
      } else if 8 <= i < 10 {
        assert s[i] == s[8..10][i - 8];
      } else if 11 <= i < 13 {
        assert s[i] == s[11..13][i - 11];
      } else if 14 <= i < 16 {
        assert s[i] == s[14..16][i - 14];
      } else if 17 <= i < 19 {
        assert s[i] == s[17..19][i - 17];
      }
    }
  }

  /** An RFC 3339 UTC timestamp as the upstream service sends it, with any
      fractional part and a trailing `Z`, comes out as the same instant in
      SQL form; `tail` is whatever follows the seconds once every `Z` is
      gone, e.g. `.789Z`, `Z` or nothing. */
  lemma IsoToSqlOfRfc3339(t: DateTime, sep: char, tail: string)
    requires ValidDateTime(t)
    requires sep == 'T' || sep == ' '
    requires RemoveZ(tail) == [] || RemoveZ(tail)[0] == '.'
    ensures IsoToSql(Some(Render(t, sep) + tail)) == Some(RenderSql(t))
  {
    var r := Render(t, sep);
    CleanedOfRender(t, sep, tail);
    IsoToSqlCharacterised(r + tail);
    assert IsIsoText(Cleaned(r + tail), t);
  }

  lemma CleanedOfRender(t: DateTime, sep: char, tail: string)
    requires ValidDateTime(t)
    requires sep == 'T' || sep == ' '
    requires RemoveZ(tail) == [] || RemoveZ(tail)[0] == '.'
    ensures Cleaned(Render(t, sep) + tail) == Render(t, sep)
  {
    var r := Render(t, sep);
    RenderHasNoZOrDot(t, sep);
    RemoveZAppend(r, tail);
    RemoveZNoZ(r);
    BeforeDotAppend(r, RemoveZ(tail));
  }

  /** `s` is an ISO text `fromisoformat` reads as `t` in the accepted
      subset: a full rendering with `T` or a space, or the date part alone
      for a midnight. */
  predicate IsIsoText(s: string, t: DateTime)
  {
    && ValidDateTime(t)
    && (|| s == Render(t, 'T')
        || s == Render(t, ' ')
        || (s == Render(t, 'T')[..10] && t.hour == 0 && t.minute == 0 && t.second == 0))
  }

  /** The date part of a midnight parses back to that midnight. */
  lemma ParseIsoOfDate(t: DateTime)
    requires ValidDateTime(t) && t.hour == 0 && t.minute == 0 && t.second == 0
    ensures ParseIso(Render(t, 'T')[..10]) == Some(t)
  {
    var r := Render(t, 'T');
    var s := r[..10];
    RenderChars(t, 'T');
    assert s[0..4] == r[0..4] && s[5..7] == r[5..7] && s[8..10] == r[8..10];
    Digits4OfYear4(s, 0, t.date.year);
    Digits2OfTwo(s, 5, t.date.month);
    Digits2OfTwo(s, 8, t.date.day);
  }

  /** The text left once every `Z` is gone and the fraction is cut. */
  function Cleaned(s: string): (c: string)
    ensures 'Z' !in c && '.' !in c
  {
    var c := BeforeDot(RemoveZ(s));
    assert forall i :: 0 <= i < |c| ==> c[i] == RemoveZ(s)[i];
    c
  }

  /** All inputs: a string gives a result exactly when its cleaned text is
      the ISO text of some date-time, and the result is then that date-time
      in SQL form. Every other string, the empty one included, gives
      nothing. */
  lemma IsoToSqlCharacterised(s: string)
    ensures IsoToSql(Some(s)).Some? <==> exists t :: IsIsoText(Cleaned(s), t)
    ensures forall t :: IsIsoText(Cleaned(s), t) ==> IsoToSql(Some(s)) == Some(RenderSql(t))
  {
    var c := Cleaned(s);
    forall t | IsIsoText(c, t)
      ensures IsoToSql(Some(s)) == Some(RenderSql(t))
    {
      IsoTextParses(c, t);
      assert s != "";
    }
    if IsoToSql(Some(s)).Some? {
      var t := ParseIso(c).value;
      ParsedIsIsoText(c);
      assert IsIsoText(c, t);
    }
  }

  lemma IsoTextParses(c: string, t: DateTime)
    requires IsIsoText(c, t)
    ensures ParseIso(c) == Some(t)
    ensures |c| == 10 || |c| == 19
  {
    if c == Render(t, 'T') {
      ParseIsoOfRender(t, 'T');
    } else if c == Render(t, ' ') {
      ParseIsoOfRender(t, ' ');
    } else {
      ParseIsoOfDate(t);
    }
  }

  lemma ParsedIsIsoText(c: string)
    requires ParseIso(c).Some?
    ensures IsIsoText(c, ParseIso(c).value)
  {
    ParseIsoFields(c);
    ParseIsoOnlyRenderings(c);
  }

  /** Example: an upstream creation time with milliseconds. */
  lemma IsoToSqlExample()
    ensures IsoToSql(Some("2020-01-01T12:34:56.789Z")) == Some("2020-01-01 12:34:56")
  {
    var t := DateTime(Date(2020, 1, 1), 12, 34, 56);
    RenderExample();
    assert "2020-01-01T12:34:56.789Z" == Render(t, 'T') + ".789Z";
    assert ".789Z" == ['.'] + "789Z";
    RemoveZCons('.', "789Z");
    IsoToSqlOfRfc3339(t, 'T', ".789Z");
  }

  lemma RenderExample()
    ensures Render(DateTime(Date(2020, 1, 1), 12, 34, 56), 'T') == "2020-01-01T12:34:56"
    ensures RenderSql(DateTime(Date(2020, 1, 1), 12, 34, 56)) == "2020-01-01 12:34:56"
  {
    FieldsExample();
    var t := DateTime(Date(2020, 1, 1), 12, 34, 56);
    assert Render(t, 'T') == "2020" + "-" + "01" + "-" + "01" + "T" + "12" + ":" + "34" + ":" + "56";
    assert RenderSql(t) == "2020" + "-" + "01" + "-" + "01" + " " + "12" + ":" + "34" + ":" + "56";
  }

  lemma FieldsExample()
    ensures Year4(2020) == "2020" && Two(1) == "01"
    ensures Two(12) == "12" && Two(34) == "34" && Two(56) == "56"
  {
  }


  /** The SQL form is a fixed point: formatting an already formatted value
      gives it back. */
  lemma IsoToSqlIdempotent(iso: Option<string>)
    requires IsoToSql(iso).Some?
    ensures IsoToSql(IsoToSql(iso)) == IsoToSql(iso)
  {
    var s := IsoToSql(iso).value;
    var t := ParseIso(s).value;
    ParseIsoOnlyRenderings(s);
    assert s == Render(t, ' ');
    IsoToSqlOfRfc3339(t, ' ', "");
    assert s + "" == s;
  }
}
