/** The RFC 3339 timestamp parser: which strings it takes, and for which second. */
module Rfc3339 {
  import opened Buf
  import opened CivilDate

  // ----- decimal fields

  predicate IsDigit(c: char) { '0' <= c <= '9' }

  predicate AllDigits(s: string) { forall i :: 0 <= i < |s| ==> IsDigit(s[i]) }

  function Number(s: string): nat
    requires AllDigits(s)
  {
    if s == "" then 0 else 10 * Number(s[..|s| - 1]) + (s[|s| - 1] as int - '0' as int)
  }

  function Pow10(k: nat): nat { if k == 0 then 1 else 10 * Pow10(k - 1) }

  /** The last k decimal digits of n. */
  function Pad(n: nat, k: nat): (s: string)
    ensures |s| == k && AllDigits(s)
  {
    if k == 0 then "" else Pad(n / 10, k - 1) + [('0' as int + n % 10) as char]
  }

  lemma {:induction false} NumberOfPad(n: nat, k: nat)
    requires n < Pow10(k)
    ensures Number(Pad(n, k)) == n
  {
    if k > 0 {
      NumberOfPad(n / 10, k - 1);
      assert Pad(n, k)[..k - 1] == Pad(n / 10, k - 1);
    }
  }

  lemma {:induction false} PadOfNumber(s: string)
    requires AllDigits(s)
    ensures Number(s) < Pow10(|s|) && Pad(Number(s), |s|) == s
  {
    if s != "" {
      PadOfNumber(s[..|s| - 1]);
      assert s == s[..|s| - 1] + [s[|s| - 1]];
    }
  }

  lemma Widths()
    ensures Pow10(2) == 100 && Pow10(4) == 10000
  {
    assert Pow10(1) == 10;
    assert Pow10(3) == 1000;
  }

  /** tamga_read_uint. */
  method ReadUint(s: string) returns (r: Option<nat>)
    ensures r == if AllDigits(s) then Some(Number(s)) else None
  {
    var value := 0;
    for i := 0 to |s|
      invariant AllDigits(s[..i]) && value == Number(s[..i])
    {
      if !IsDigit(s[i]) { return None; }
      assert s[..i + 1][..i] == s[..i];
      value := value * 10 + (s[i] as int - '0' as int);
    }
    assert s[..|s|] == s;
    r := Some(value);
  }

  // ----- stamps

  datatype Clock = Clock(date: Date, hour: nat, minute: nat, second: nat, separator: char)

  datatype Zone = Utc(letter: char) | Offset(sign: char, hours: nat, minutes: nat)

  /** fraction is empty, or a dot and at least one digit. */
  datatype Stamp = Stamp(clock: Clock, fraction: string, zone: Zone)

  predicate ValidClock(c: Clock)
  {
    && 0 <= c.date.year < 10000 && Valid(c.date)
    && c.hour <= 23 && c.minute <= 59 && c.second <= 60 && c.separator in {'T', 't'}
  }

  predicate ValidZone(z: Zone)
  {
    match z
    case Utc(c) => c in {'Z', 'z'}
    case Offset(sign, h, m) => sign in {'+', '-'} && h <= 23 && m <= 59
  }

  predicate ValidFraction(f: string) { f == "" || (|f| >= 2 && f[0] == '.' && AllDigits(f[1..])) }

  predicate ValidStamp(s: Stamp) { ValidClock(s.clock) && ValidFraction(s.fraction) && ValidZone(s.zone) }

  function WriteClock(c: Clock): (s: string)
    requires c.date.year >= 0
    ensures |s| == 19
  {
    Pad(c.date.year, 4) + "-" + Pad(c.date.month, 2) + "-" + Pad(c.date.day, 2) + [c.separator]
    + Pad(c.hour, 2) + ":" + Pad(c.minute, 2) + ":" + Pad(c.second, 2)
  }

  function WriteZone(z: Zone): string
  {
    match z
    case Utc(c) => [c]
    case Offset(sign, h, m) => [sign] + Pad(h, 2) + ":" + Pad(m, 2)
  }

  function Write(s: Stamp): string
    requires s.clock.date.year >= 0
  {
    WriteClock(s.clock) + s.fraction + WriteZone(s.zone)
  }

  /** Seconds the zone is ahead of UTC. */
  function Ahead(z: Zone): int
  {
    match z
    case Utc(_) => 0
    case Offset(sign, h, m) => (if sign == '-' then -1 else 1) * (h * 3600 + m * 60)
  }

  /** The epoch second that the stamp names; second 60 counts as 59. */
  function Instant(s: Stamp): int
  {
    var c := s.clock;
    var second := if c.second == 60 then 59 else c.second;
    DaysFromCivil(c.date) * 86400 + c.hour * 3600 + c.minute * 60 + second - Ahead(s.zone)
  }

  // ----- reading

  predicate ClockShape(s: string)
    requires |s| == 19
  {
    && AllDigits(s[0..4]) && s[4] == '-' && AllDigits(s[5..7]) && s[7] == '-' && AllDigits(s[8..10])
    && AllDigits(s[11..13]) && s[13] == ':' && AllDigits(s[14..16]) && s[16] == ':' && AllDigits(s[17..19])
  }

  function ClockFields(s: string): Clock
    requires |s| == 19 && ClockShape(s)
  {
    Clock(Date(Number(s[0..4]), Number(s[5..7]), Number(s[8..10])), Number(s[11..13]), Number(s[14..16]),
      Number(s[17..19]), s[10])
  }

  function ReadClock(s: string): Option<Clock>
    requires |s| == 19
  {
    if ClockShape(s) && ValidClock(ClockFields(s)) then Some(ClockFields(s)) else None
  }

  predicate OffsetShape(s: string) { |s| == 6 && AllDigits(s[1..3]) && s[3] == ':' && AllDigits(s[4..6]) }

  function ReadZone(s: string): Option<Zone>
  {
    if s == "" then None
    else if s[0] in {'Z', 'z'} then (if |s| == 1 then Some(Utc(s[0])) else None)
    else if s[0] in {'+', '-'} && OffsetShape(s) && Number(s[1..3]) <= 23 && Number(s[4..6]) <= 59 then
      Some(Offset(s[0], Number(s[1..3]), Number(s[4..6])))
    else None
  }

  /** How many digits s starts with. */
  function DigitRun(s: string): (n: nat)
    ensures n <= |s| && AllDigits(s[..n]) && (n < |s| ==> !IsDigit(s[n]))
  {
    if s == "" || !IsDigit(s[0]) then 0 else
      assert s[1..][..DigitRun(s[1..])] == s[1..1 + DigitRun(s[1..])]; 1 + DigitRun(s[1..])
  }

  /** Where the fraction that starts at the front of s ends. */
  function FractionEnd(s: string): (n: nat)
    ensures n <= |s|
  {
    if s != "" && s[0] == '.' then 1 + DigitRun(s[1..]) else 0
  }

  function Read(s: string): Option<Stamp>
  {
    if |s| < 20 then None
    else
      var tail := s[19..];
      var end := FractionEnd(tail);
      if end == 1 || ReadClock(s[..19]).None? || ReadZone(tail[end..]).None? then None
      else Some(Stamp(ReadClock(s[..19]).value, tail[..end], ReadZone(tail[end..]).value))
  }

  // ----- reading undoes writing, and only writing

  lemma ClockSlices(c: Clock)
    requires c.date.year >= 0
    ensures var s := WriteClock(c);
            && s[0..4] == Pad(c.date.year, 4) && s[4] == '-' && s[5..7] == Pad(c.date.month, 2) && s[7] == '-'
            && s[8..10] == Pad(c.date.day, 2) && s[10] == c.separator && s[11..13] == Pad(c.hour, 2) && s[13] == ':'
            && s[14..16] == Pad(c.minute, 2) && s[16] == ':' && s[17..19] == Pad(c.second, 2)
  {
  }

  lemma ClockRead(c: Clock)
    requires ValidClock(c)
    ensures ReadClock(WriteClock(c)) == Some(c)
  {
    hide Number, Pad, WriteClock, Pow10, DaysInMonth;
    ClockSlices(c);
    Widths();
    NumberOfPad(c.date.year, 4);
    NumberOfPad(c.date.month, 2);
    MonthFits(c.date);
    NumberOfPad(c.date.day, 2);
    NumberOfPad(c.hour, 2);
    NumberOfPad(c.minute, 2);
    NumberOfPad(c.second, 2);
  }

  lemma MonthFits(d: Date)
    ensures DaysInMonth(d.year, d.month) <= 31
  {
  }

  lemma ClockWritten(s: string)
    requires |s| == 19 && ClockShape(s)
    ensures ClockFields(s).date.year < 10000 && WriteClock(ClockFields(s)) == s
  {
    hide Number, Pad, Pow10;
    Widths();
    PadOfNumber(s[0..4]);
    PadOfNumber(s[5..7]);
    PadOfNumber(s[8..10]);
    PadOfNumber(s[11..13]);
    PadOfNumber(s[14..16]);
    PadOfNumber(s[17..19]);
    Pieces(s);
  }

  lemma Pieces(s: string)
    requires |s| == 19
    ensures s[0..4] + [s[4]] + s[5..7] + [s[7]] + s[8..10] + [s[10]] + s[11..13] + [s[13]] + s[14..16] + [s[16]] +
            s[17..19] == s
  {
  }

  lemma ZoneRead(z: Zone)
    requires ValidZone(z)
    ensures ReadZone(WriteZone(z)) == Some(z)
  {
    hide Number, Pad, Pow10;
    match z
    case Utc(_) =>
    case Offset(sign, h, m) =>
      var s := WriteZone(z);
      assert s[1..3] == Pad(h, 2) && s[4..6] == Pad(m, 2);
      Widths();
      NumberOfPad(h, 2);
      NumberOfPad(m, 2);
  }

  lemma ZoneWritten(s: string)
    requires ReadZone(s).Some?
    ensures ValidZone(ReadZone(s).value) && WriteZone(ReadZone(s).value) == s
  {
    hide Number, Pad, Pow10;
    if |s| == 6 {
      PadOfNumber(s[1..3]);
      PadOfNumber(s[4..6]);
      assert [s[0]] + s[1..3] + ":" + s[4..6] == s;
    }
  }

  lemma {:induction false} RunOfDigits(d: string, rest: string)
    requires AllDigits(d) && (rest == "" || !IsDigit(rest[0]))
    ensures DigitRun(d + rest) == |d|
  {
    if d != "" {
      assert (d + rest)[1..] == d[1..] + rest;
      RunOfDigits(d[1..], rest);
    }
  }

  lemma FractionEnds(f: string, z: Zone)
    requires ValidFraction(f) && ValidZone(z)
    ensures FractionEnd(f + WriteZone(z)) == |f| && WriteZone(z) != ""
  {
    hide DigitRun;
    var zone := WriteZone(z);
    assert zone[0] == if z.Utc? then z.letter else z.sign;
    if f != "" {
      assert (f + zone)[1..] == f[1..] + zone;
      RunOfDigits(f[1..], zone);
    }
  }

  /** Every stamp that is written is read back, with its fraction and zone. */
  lemma ReadWritten(s: Stamp)
    requires ValidStamp(s)
    ensures Read(Write(s)) == Some(s)
  {
    hide ReadClock, ReadZone, FractionEnd, WriteClock, WriteZone, ValidClock, ValidZone;
    YearFits(s.clock);
    var text := Write(s);
    var tail := s.fraction + WriteZone(s.zone);
    FractionEnds(s.fraction, s.zone);
    ClockRead(s.clock);
    ZoneRead(s.zone);
    assert text == WriteClock(s.clock) + tail;
    assert text[..19] == WriteClock(s.clock) && text[19..] == tail;
    assert tail[..|s.fraction|] == s.fraction && tail[|s.fraction|..] == WriteZone(s.zone);
  }

  lemma YearFits(c: Clock)
    requires ValidClock(c)
    ensures c.date.year >= 0
  {
  }

  /** Nothing else is read: an accepted string is the spelling of the stamp it gives. */
  lemma ReadIsWritten(text: string)
    requires Read(text).Some?
    ensures ValidStamp(Read(text).value) && Write(Read(text).value) == text
  {
    hide WriteClock, WriteZone, ReadZone;
    var tail := text[19..];
    var end := FractionEnd(tail);
    ClockWritten(text[..19]);
    ZoneWritten(tail[end..]);
    FractionShape(tail);
    assert text == text[..19] + tail[..end] + tail[end..];
  }

  lemma FractionShape(tail: string)
    requires FractionEnd(tail) != 1
    ensures ValidFraction(tail[..FractionEnd(tail)])
  {
    var end := FractionEnd(tail);
    if end > 0 {
      assert tail[..end][1..] == tail[1..][..end - 1];
    }
  }

  // ----- instants

  /** The stamp for second n in the given zone, by counting days from 1970-01-01. */
  function StampAt(n: int, separator: char, fraction: string, z: Zone): Stamp
  {
    var local := n + Ahead(z);
    var time := local % 86400;
    Stamp(Clock(DateAt(local / 86400), time / 3600, time % 3600 / 60, time % 60, separator), fraction, z)
  }

  /** One instant has the same epoch second however it is written, for every zone. */
  lemma InstantOfStamp(n: int, separator: char, fraction: string, z: Zone)
    ensures Instant(StampAt(n, separator, fraction, z)) == n && Valid(StampAt(n, separator, fraction, z).clock.date)
  {
    hide DateAt, DaysFromCivil, Ahead;
    var local := n + Ahead(z);
    CountOfDate(local / 86400);
    SplitDay(local);
  }

  lemma SplitDay(t: int)
    ensures var s := t % 86400; t == t / 86400 * 86400 + s / 3600 * 3600 + s % 3600 / 60 * 60 + s % 60
    ensures var s := t % 86400; 0 <= s / 3600 <= 23 && 0 <= s % 3600 / 60 <= 59 && 0 <= s % 60 <= 59
  {
    var s := t % 86400;
    assert s % 3600 % 60 == s % 60 by { Sixty(s); }
  }

  lemma Sixty(s: int)
    ensures s % 3600 % 60 == s % 60
  {
    var q := s / 3600;
    assert s == 3600 * q + s % 3600;
    assert s == 60 * (60 * q) + s % 3600;
  }

  /** Two spellings of the same instant, with any zones, parse to the same second. */
  lemma OffsetsAgree(n: int, sep: char, f: string, z: Zone, sep': char, f': string, z': Zone)
    requires ValidStamp(StampAt(n, sep, f, z)) && ValidStamp(StampAt(n, sep', f', z'))
    ensures Parsed(Write(StampAt(n, sep, f, z))) == Parsed(Write(StampAt(n, sep', f', z'))) == Some(n)
  {
    hide StampAt, Instant, Read, Write, ValidStamp;
    InstantOfStamp(n, sep, f, z);
    InstantOfStamp(n, sep', f', z');
    assert StampAt(n, sep, f, z).clock.date.year >= 0 by { YearsFit(StampAt(n, sep, f, z)); }
    YearsFit(StampAt(n, sep', f', z'));
    ReadWritten(StampAt(n, sep, f, z));
    ReadWritten(StampAt(n, sep', f', z'));
  }

  lemma YearsFit(s: Stamp)
    requires ValidStamp(s)
    ensures s.clock.date.year >= 0
  {
  }

  /** In one zone an instant has one date and time of day. */
  lemma StampOfInstant(s: Stamp)
    requires ValidStamp(s) && s.clock.second < 60
    ensures s == StampAt(Instant(s), s.clock.separator, s.fraction, s.zone)
  {
    hide DateAt, DaysFromCivil, Ahead, Valid;
    var c := s.clock;
    var days := DaysFromCivil(c.date);
    JoinDay(days, c.hour, c.minute, c.second);
    DateOfCount(c.date);
  }

  lemma JoinDay(days: int, h: nat, m: nat, s: nat)
    requires h <= 23 && m <= 59 && s <= 59
    ensures var t := days * 86400 + h * 3600 + m * 60 + s;
            t / 86400 == days && t % 86400 / 3600 == h && t % 86400 % 3600 / 60 == m && t % 86400 % 60 == s
  {
    var t := days * 86400 + h * 3600 + m * 60 + s;
    assert t / 86400 == days && t % 86400 == h * 3600 + m * 60 + s;
    Sixty(t % 86400);
  }

  function Parsed(text: string): Option<int>
  {
    match Read(text)
    case None => None
    case Some(s) => Some(Instant(s))
  }

  // ----- the parser

  /** tamga_rfc3339_parse, None where it returns false. */
  method Parse(text: string) returns (r: Option<int>)
    ensures r == Parsed(text)
  {
    hide Number, DaysInMonth, DigitRun, Instant, ReadZone, ClockShape, ValidFraction;
    var n := |text|;
    if n < 20 { return None; }
    var clock, ok := ParseClock(text[..19]);
    if !ok { return None; }
    var pos := 19;
    if text[pos] == '.' {
      pos := 20;
      while pos < n && IsDigit(text[pos])
        invariant 20 <= pos <= n && AllDigits(text[20..pos])
      {
        assert text[20..pos + 1] == text[20..pos] + [text[pos]];
        pos := pos + 1;
      }
      RunEnds(text, pos);
      if pos == 20 { return None; }
    }
    assert text[19..][pos - 19..] == text[pos..] && text[19..][..pos - 19] == text[19..pos];
    NoZone();
    if pos >= n { return None; }
    var zone := ParseZone(text[pos..]);
    if zone.None? || !ValidClock(clock) { return None; }
    r := Some(Instant(Stamp(clock, text[19..pos], zone.value)));
  }

  lemma NoZone()
    ensures ReadZone("").None?
  {
  }

  lemma RunEnds(text: string, pos: nat)
    requires 20 <= pos <= |text| && text[19] == '.' && AllDigits(text[20..pos]) &&
             (pos < |text| ==> !IsDigit(text[pos]))
    ensures FractionEnd(text[19..]) == pos - 19
  {
    var rest := text[pos..];
    assert text[19..][1..] == text[20..pos] + rest;
    RunOfDigits(text[20..pos], rest);
  }

  method ParseClock(s: string) returns (c: Clock, ok: bool)
    requires |s| == 19
    ensures ok == (ClockShape(s) && s[10] in {'T', 't'})
    ensures ok ==> c == ClockFields(s)
  {
    c, ok := Clock(EPOCH, 0, 0, 0, s[10]), false;
    var year := ReadUint(s[0..4]);
    if year.None? || s[4] != '-' { return; }
    var month := ReadUint(s[5..7]);
    if month.None? || s[7] != '-' { return; }
    var day := ReadUint(s[8..10]);
    if day.None? { return; }
    if s[10] != 'T' && s[10] != 't' { return; }
    var hour := ReadUint(s[11..13]);
    if hour.None? || s[13] != ':' { return; }
    var minute := ReadUint(s[14..16]);
    if minute.None? || s[16] != ':' { return; }
    var second := ReadUint(s[17..19]);
    if second.None? { return; }
    c, ok := Clock(Date(year.value, month.value, day.value), hour.value, minute.value, second.value, s[10]), true;
  }

  method ParseZone(s: string) returns (z: Option<Zone>)
    requires s != ""
    ensures z == ReadZone(s)
  {
    if s[0] == 'Z' || s[0] == 'z' {
      if |s| != 1 { return None; }
      z := Some(Utc(s[0]));
    } else if s[0] == '+' || s[0] == '-' {
      if |s| != 6 { return None; }
      var hours := ReadUint(s[1..3]);
      if hours.None? || s[3] != ':' { return None; }
      var minutes := ReadUint(s[4..6]);
      if minutes.None? { return None; }
      if hours.value > 23 || minutes.value > 59 { return None; }
      z := Some(Offset(s[0], hours.value, minutes.value));
    } else {
      z := None;
    }
  }
}
