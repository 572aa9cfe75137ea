/** Which strings are timestamps and which second each one names, field by field. Section 5.6 of RFC 3339. */
module Rfc3339Exact {
  import opened Buf
  import opened CivilDate
  import opened Rfc3339

  datatype Fields = Fields(year: string, month: string, day: string, separator: char, hour: string, minute: string,
    second: string, fraction: string, zone: string)

  /** Two digits. */
  predicate Pair(s: string) { |s| == 2 && AllDigits(s) }

  predicate Shaped(f: Fields)
  {
    |f.year| == 4 && AllDigits(f.year) && Pair(f.month) && Pair(f.day) && (f.separator == 'T' || f.separator == 't') &&
    Pair(f.hour) && Pair(f.minute) && Pair(f.second) &&
    (f.fraction == "" || (|f.fraction| >= 2 && f.fraction[0] == '.' && AllDigits(f.fraction[1..])))
  }

  function Head(f: Fields): string
  {
    f.year + "-" + f.month + "-" + f.day + [f.separator] + f.hour + ":" + f.minute + ":" + f.second
  }

  function Joined(f: Fields): string { Head(f) + f.fraction + f.zone }

  /** The zone is that many seconds ahead of UTC. */
  predicate Zoned(zone: string, ahead: int)
  {
    if zone == "Z" || zone == "z" then ahead == 0
    else
      |zone| == 6 && (zone[0] == '+' || zone[0] == '-') && zone[3] == ':' &&
      var hours, minutes := zone[1..3], zone[4..6];
      Pair(hours) && Pair(minutes) && Number(hours) <= 23 && Number(minutes) <= 59 &&
      if zone[0] == '+' then ahead == 3600 * Number(hours) + 60 * Number(minutes)
      else ahead == -(3600 * Number(hours) + 60 * Number(minutes))
  }

  predicate InRange(f: Fields)
    requires Shaped(f)
  {
    1 <= Number(f.month) <= 12 && 1 <= Number(f.day) <= DaysInMonth(Number(f.year), Number(f.month)) &&
    Number(f.hour) <= 23 && Number(f.minute) <= 59 && Number(f.second) <= 60
  }

  /** The fields are in range and name second n of the epoch; a leap second counts as the one before it. */
  ghost predicate Names(f: Fields, n: int)
    requires Shaped(f)
  {
    var date := Date(Number(f.year), Number(f.month), Number(f.day));
    var h, m, s := Number(f.hour), Number(f.minute), Number(f.second);
    InRange(f) && exists ahead ::
      Zoned(f.zone, ahead) && n == 86400 * DaysFromCivil(date) + 3600 * h + 60 * m + (if s == 60 then 59 else s) - ahead
  }

  lemma ZonedExact(zone: string, ahead: int)
    ensures Zoned(zone, ahead) <==> ReadZone(zone).Some? && Ahead(ReadZone(zone).value) == ahead
  {
    hide Number;
    if |zone| == 1 {
      assert zone == [zone[0]];
    }
  }

  /** The zone's letter or sign ends the fraction. */
  lemma FractionStops(fraction: string, zone: string, ahead: int)
    requires fraction == "" || (|fraction| >= 2 && fraction[0] == '.' && AllDigits(fraction[1..]))
    requires Zoned(zone, ahead)
    ensures FractionEnd(fraction + zone) == |fraction|
  {
    hide Number;
    if fraction == "" {
      assert fraction + zone == zone;
    } else {
      assert (fraction + zone)[1..] == fraction[1..] + zone;
      RunOfDigits(fraction[1..], zone);
    }
  }

  lemma HeadSlices(f: Fields)
    requires Shaped(f)
    ensures var s := Head(f);
            && |s| == 19 && s[0..4] == f.year && s[4] == '-' && s[5..7] == f.month && s[7] == '-' && s[8..10] == f.day
            && s[10] == f.separator && s[11..13] == f.hour && s[13] == ':' && s[14..16] == f.minute && s[16] == ':'
            && s[17..19] == f.second
  {
  }

  lemma HeadLength(f: Fields)
    requires Shaped(f)
    ensures |Head(f)| == 19
  {
  }

  /** The date and time of day. */
  lemma HeadRead(f: Fields)
    requires Shaped(f) && InRange(f)
    ensures |Head(f)| == 19
    ensures ReadClock(Head(f)) == Some(Clock(Date(Number(f.year), Number(f.month), Number(f.day)), Number(f.hour),
                                             Number(f.minute), Number(f.second), f.separator))
  {
    hide Number, DaysInMonth, Head;
    HeadSlices(f);
    YearDigits(f.year);
  }

  /** A spelled timestamp is read as what its fields say. */
  lemma Spelled(f: Fields, n: int)
    requires Shaped(f) && Names(f, n)
    ensures Parsed(Joined(f)) == Some(n)
  {
    hide Number, DaysFromCivil, DaysInMonth, Head, DigitRun, FractionEnd, ReadZone, ReadClock, Zoned;
    var s := Joined(f);
    var ahead :| Zoned(f.zone, ahead) &&
      n == 86400 * DaysFromCivil(Date(Number(f.year), Number(f.month), Number(f.day))) + 3600 * Number(f.hour) +
           60 * Number(f.minute) + (if Number(f.second) == 60 then 59 else Number(f.second)) - ahead;
    HeadLength(f);
    assert s[..19] == Head(f) && s[19..] == f.fraction + f.zone;
    FractionStops(f.fraction, f.zone, ahead);
    ZonedExact(f.zone, ahead);
    var tail := s[19..];
    assert tail[..|f.fraction|] == f.fraction && tail[|f.fraction|..] == f.zone;
    ZoneLength(f.zone, ahead);
    HeadRead(f);
  }

  lemma ZoneLength(zone: string, ahead: int)
    requires Zoned(zone, ahead)
    ensures |zone| >= 1
  {
  }

  lemma YearDigits(year: string)
    requires |year| == 4 && AllDigits(year)
    ensures 0 <= Number(year) < 10000
  {
    hide Number;
    PadOfNumber(year);
    Widths();
  }

  /** The fields of a string that is read. */
  lemma FieldsOf(text: string) returns (f: Fields)
    requires Read(text).Some?
    ensures Shaped(f) && text == Joined(f) && Names(f, Instant(Read(text).value))
  {
    hide Number, DaysFromCivil, DaysInMonth, DigitRun, ReadZone;
    var s, tail := text[..19], text[19..];
    var end := FractionEnd(tail);
    FractionShape(tail);
    f := Fields(s[0..4], s[5..7], s[8..10], s[10], s[11..13], s[14..16], s[17..19], tail[..end], tail[end..]);
    ZonedExact(f.zone, Ahead(ReadZone(f.zone).value));
    Pieces(s);
    assert text == s + tail[..end] + tail[end..];
  }

  /** A string is a timestamp for second n exactly when it is written from fields that name n. */
  lemma ParsedExact(text: string, n: int)
    ensures Parsed(text) == Some(n) <==> exists f: Fields :: Shaped(f) && text == Joined(f) && Names(f, n)
  {
    hide Shaped, Joined, Names, Read, Instant;
    if Parsed(text) == Some(n) {
      var f := FieldsOf(text);
    }
    forall f: Fields | Shaped(f) && text == Joined(f) && Names(f, n)
      ensures Parsed(text) == Some(n)
    {
      Spelled(f, n);
    }
  }

  /** An hour ahead of UTC is an hour earlier, an hour behind it is an hour later. */
  lemma OneHour(stem: string, n: int)
    requires Parsed(stem + "Z") == Some(n)
    ensures Parsed(stem + "+01:00") == Some(n - 3600) && Parsed(stem + "-01:00") == Some(n + 3600)
  {
    hide Read, Instant, Number, DaysFromCivil, DaysInMonth;
    var f := FieldsOf(stem + "Z");
    var ahead := f.(zone := "+01:00");
    var behind := f.(zone := "-01:00");
    OneHourZones();
    Stem(f, stem, "+01:00");
    Stem(f, stem, "-01:00");
    assert Zoned(f.zone, 0);
    Spelled(ahead, n - 3600);
    Spelled(behind, n + 3600);
  }

  lemma OneHourZones()
    ensures Zoned("+01:00", 3600) && Zoned("-01:00", -3600)
  {
    assert Number("01"[..1]) == 0 by { assert "01"[..1][..0] == ""; }
    assert Number("00"[..1]) == 0 by { assert "00"[..1][..0] == ""; }
    assert "+01:00"[1..3] == "01" && "+01:00"[4..6] == "00" && "-01:00"[1..3] == "01" && "-01:00"[4..6] == "00";
  }

  lemma Stem(f: Fields, stem: string, z: string)
    requires Shaped(f) && Joined(f) == stem + "Z" && exists n :: Zoned(f.zone, n)
    ensures f.zone == "Z" && Joined(f.(zone := z)) == stem + z
  {
    hide Number, Head;
    var s := Joined(f);
    assert s[|s| - 1] == 'Z' && s[..|s| - 1] == stem;
    assert s[|s| - 1] == f.zone[|f.zone| - 1];
    assert f.zone == "Z";
    assert s[..|s| - 1] == Head(f) + f.fraction;
    assert Head(f.(zone := z)) == Head(f) by { SameHead(f, z); }
  }

  lemma SameHead(f: Fields, z: string)
    ensures Head(f.(zone := z)) == Head(f)
  {
  }
}
